/** The heap allocator of util/heap.c over a pool of cells. */
module Heap {
  import opened HeapLayout
  import opened Memory
  import opened Arithmetic

  /** The least multiple of the alignment that is no less than a size. */
  function Rounded(size: nat): (rounded: nat)
    ensures Aligned(rounded) && size <= rounded
    ensures forall m: nat | Aligned(m) && size <= m :: rounded <= m
  {
    RoundingIsLeast(size);
    (size + ALIGN - 1) / ALIGN * ALIGN
  }

  lemma RoundingIsLeast(size: nat)
    ensures var rounded := (size + ALIGN - 1) / ALIGN * ALIGN;
            && Aligned(rounded) && size <= rounded < size + ALIGN
            && forall m: nat | Aligned(m) && size <= m :: rounded <= m
  {
    var units := (size + ALIGN - 1) / ALIGN;
    assert units * ALIGN + (size + ALIGN - 1) % ALIGN == size + ALIGN - 1;
    MultipleAligned(units);
    forall m: nat | Aligned(m) && size <= m
      ensures units * ALIGN <= m
    {
      var k := m / ALIGN;
      assert m == k * ALIGN;
      if k < units {
        ProductGrows(k, units, ALIGN);
      }
    }
  }

  /** A request rounded up to the alignment, with its header. */
  function Requested(size: nat): nat {
    Rounded(size) + HDR
  }

  /** The same as 32-bit arithmetic computes it. */
  function Requested32(size: nat): nat {
    ((size + ALIGN - 1) % UINT32_LIMIT / ALIGN * ALIGN + HDR) % UINT32_LIMIT
  }

  class Heap {
    const pool: array<Cell>
    var allocBytes: nat
    var maxAllocBytes: nat
    var allocCount: nat
    var totalCount: nat
    ghost var blocks: seq<Block>

    ghost predicate Valid()
      reads this, pool
    {
      && Tiled(pool[..], blocks) && Coalesced(blocks)
      && allocBytes == AllocBytes(blocks)
      && allocCount == AllocCount(blocks)
      && totalCount == |blocks|
      && allocBytes <= maxAllocBytes
    }

    /** RedHeapInit(), of memory that may hold anything: one free block and the
        terminating header. */
    constructor (memory: seq<bv8>)
      requires Aligned(|memory|) && 2 * HDR <= |memory|
      ensures Valid() && fresh(pool) && pool.Length == |memory|
      ensures blocks == [Block(0, |memory| - HDR, true), Block(|memory| - HDR, HDR, false)]
    {
      var size := |memory|;
      pool := new Cell[size](i requires 0 <= i < |memory| => Data(memory[i]));
      allocBytes := HDR;
      maxAllocBytes := HDR;
      allocCount := 1;
      totalCount := 2;
      blocks := [Block(0, size - HDR, true), Block(size - HDR, HDR, false)];
      new;
      WriteHeader(0, Header(Free, size - HDR, At(size - HDR), Null));
      WriteHeader(size - HDR, Header(Alloc, HDR, Null, At(0)));
      InitialTiled(pool[..], blocks);
    }

    /** Write a header where there was none. */
    method WriteHeader(at: nat, header: Header)
      requires at + HDR <= pool.Length
      modifies pool
      ensures pool[at] == Head(header)
      ensures forall a | at < a < at + HDR :: pool[a].Inside?
      ensures forall a | 0 <= a < pool.Length && !(at <= a < at + HDR) :: pool[a] == old(pool[a])
    {
      forall a | at < a < at + HDR {
        pool[a] := Inside(0);
      }
      pool[at] := Head(header);
    }

    /** HeapBlockAlloc(): mark block `i`, at address `block`, as allocated,
        splitting it if it is too large. */
    method HeapBlockAlloc(block: nat, request: nat, ghost i: nat)
      requires Valid() && i < |blocks| && blocks[i].start == block && blocks[i].free
      requires HDR <= request <= blocks[i].size && Aligned(request)
      modifies this`allocBytes, this`maxAllocBytes, this`allocCount, this`totalCount, this`blocks, pool
      ensures Valid()
      ensures blocks == Taken(old(blocks), i, request)
      ensures maxAllocBytes == if old(maxAllocBytes) < allocBytes then allocBytes else old(maxAllocBytes)
      ensures forall a | 0 <= a < pool.Length && !HeaderCell(old(blocks), i, request, a) :: pool[a] == old(pool[a])
    {
      hide Aligned, AllocBytes, AllocCount;
      ghost var bs := blocks;
      ghost var before := pool[..];
      assert BlockOk(before, bs, i);
      assert BlockOk(before, bs, i + 1);
      blocks := Taken(bs, i, request);
      TakenCounts(bs, i, request);
      TakenCoalesced(bs, i, request);
      if pool[block].header.size > request + HDR {
        Split(block, request, bs, i);
        totalCount := totalCount + 1;
        SplitTiled(before, bs, i, request, pool[..]);
      } else {
        pool[block] := Head(pool[block].header.(sentinel := Alloc));
        WholeTiled(before, bs, i, request, pool[..]);
      }
      allocCount := allocCount + 1;
      allocBytes := allocBytes + pool[block].header.size;
      if allocBytes > maxAllocBytes {
        maxAllocBytes := allocBytes;
      }
    }

    /** HeapBlockFree(): mark block `i`, at address `block`, as free, and merge
        it with the next and the previous block if they are free. */
    method HeapBlockFree(block: nat, ghost i: nat) returns (freed: nat)
      requires Valid() && i + 1 < |blocks| && blocks[i].start == block && !blocks[i].free
      modifies this`allocBytes, this`allocCount, this`totalCount, this`blocks, pool
      ensures Valid()
      ensures blocks == Freed(old(blocks), i) && freed == FreedStart(old(blocks), i)
      ensures forall a | 0 <= a < pool.Length && !FreedCell(old(blocks), i, a) :: pool[a] == old(pool[a])
    {
      hide Aligned, AllocBytes, AllocCount, Coalesced;
      ghost var bs := blocks;
      FreedCoalesced(bs, i);
      MarkedCounts(bs, i);
      MarkedEnds(pool[..], bs, i);
      hide Tiled, BlockOk;
      MarkFree(block, i);
      allocCount := allocCount - 1;
      allocBytes := allocBytes - pool[block].header.size;
      freed := MergeBoth(block, i, bs);
    }

    /** Merge block `i`, just marked as free, with its free neighbours. */
    method MergeBoth(block: nat, ghost i: nat, ghost bs: seq<Block>) returns (freed: nat)
      requires i + 1 < |bs| && blocks == Marked(bs, i) && bs[i].End() == bs[i + 1].start
      requires Tiled(pool[..], blocks) && blocks[i].start == block && totalCount == |blocks|
      modifies this`blocks, this`totalCount, pool
      ensures Tiled(pool[..], blocks) && blocks == Freed(bs, i) && totalCount == |blocks|
      ensures freed == FreedStart(bs, i)
      ensures AllocCount(blocks) == AllocCount(old(blocks)) && AllocBytes(blocks) == AllocBytes(old(blocks))
      ensures forall a | 0 <= a < pool.Length && !FreedCell(bs, i, a) :: pool[a] == old(pool[a])
    {
      hide Aligned, AllocBytes, AllocCount, Tiled;
      MergeRight(block, i);
      assert blocks[i].End() == if bs[i + 1].free then bs[i + 1].End() else bs[i].End();
      freed := MergeLeft(block, i);
    }

    /** Merge free block `i` with the next one, if that is free. */
    method MergeRight(block: nat, ghost i: nat)
      requires Tiled(pool[..], blocks) && i + 1 < |blocks| && blocks[i].start == block && blocks[i].free
      requires totalCount == |blocks|
      modifies this`blocks, this`totalCount, pool
      ensures Tiled(pool[..], blocks) && blocks == MergedRight(old(blocks), i) && totalCount == |blocks|
      ensures i + 1 < |blocks| && blocks[i].start == block && blocks[i].free
      ensures AllocCount(blocks) == AllocCount(old(blocks)) && AllocBytes(blocks) == AllocBytes(old(blocks))
      ensures forall a | 0 <= a < pool.Length && !MergedCell(old(blocks), i, a) :: pool[a] == old(pool[a])
    {
      assert BlockOk(pool[..], blocks, i) && BlockOk(pool[..], blocks, i + 1);
      var next := pool[block].header.next;
      if next.At? && pool[next.at].header.sentinel == Free {
        MergeNext(block, i);
      }
    }

    /** Merge free block `i` into the previous one, if that is free. */
    method MergeLeft(block: nat, ghost i: nat) returns (freed: nat)
      requires Tiled(pool[..], blocks) && i + 1 < |blocks| && blocks[i].start == block && blocks[i].free
      requires totalCount == |blocks|
      modifies this`blocks, this`totalCount, pool
      ensures Tiled(pool[..], blocks) && blocks == MergedLeft(old(blocks), i) && totalCount == |blocks|
      ensures freed == FreedStart(old(blocks), i)
      ensures AllocCount(blocks) == AllocCount(old(blocks)) && AllocBytes(blocks) == AllocBytes(old(blocks))
      ensures forall a | 0 <= a < pool.Length && !(i > 0 && MergedCell(old(blocks), i - 1, a)) :: pool[a] == old(pool[a])
    {
      freed := block;
      assert BlockOk(pool[..], blocks, i);
      var prev := pool[block].header.prev;
      if prev.At? {
        assert BlockOk(pool[..], blocks, i - 1);
        if pool[prev.at].header.sentinel == Free {
          MergeNext(prev.at, i - 1);
          freed := prev.at;
        }
      }
    }

    method MarkFree(block: nat, ghost i: nat)
      requires Tiled(pool[..], blocks) && i + 1 < |blocks| && blocks[i].start == block
      modifies this`blocks, pool
      ensures Tiled(pool[..], blocks) && blocks == Marked(old(blocks), i)
      ensures block < pool.Length && pool[block] == Head(HeaderOf(blocks, i))
      ensures forall a | 0 <= a < pool.Length && a != block :: pool[a] == old(pool[a])
    {
      ghost var before := pool[..];
      assert BlockOk(before, blocks, i);
      pool[block] := Head(pool[block].header.(sentinel := Free));
      MarkedTiled(before, blocks, i, pool[..]);
      blocks := Marked(blocks, i);
    }

    /** Merge block `i`, at address `block`, with the block after it. */
    method MergeNext(block: nat, ghost i: nat)
      requires Tiled(pool[..], blocks) && i + 2 < |blocks| && blocks[i].start == block
      requires blocks[i].free && blocks[i + 1].free && totalCount == |blocks|
      modifies this`blocks, this`totalCount, pool
      ensures Tiled(pool[..], blocks) && blocks == Merged(old(blocks), i)
      ensures totalCount == |blocks|
      ensures AllocCount(blocks) == AllocCount(old(blocks)) && AllocBytes(blocks) == AllocBytes(old(blocks))
      ensures forall a | 0 <= a < pool.Length && !MergedCell(old(blocks), i, a) :: pool[a] == old(pool[a])
    {
      hide Aligned, AllocBytes, AllocCount;
      ghost var before := pool[..];
      assert BlockOk(before, blocks, i) && BlockOk(before, blocks, i + 1) && BlockOk(before, blocks, i + 2);
      var next := pool[block].header.next.at;
      var after := pool[next].header.next.at;
      pool[block] := Head(pool[block].header.(size := pool[block].header.size + pool[next].header.size, next := At(after)));
      pool[after] := Head(pool[after].header.(prev := At(block)));
      pool[next] := Head(pool[next].header.(sentinel := Dead));
      totalCount := totalCount - 1;
      MergedTiled(before, blocks, i, pool[..]);
      MergedCounts(blocks, i);
      blocks := Merged(blocks, i);
    }

    /** What becomes of the heap if a header is written over another or payload
        is taken for one: nothing is known of it. */
    method Wreck()
      modifies this, pool
    {
      allocBytes, maxAllocBytes, allocCount, totalCount, blocks := *, *, *, *, *;
      var a := 0;
      while a < pool.Length {
        var cell: Cell := *;
        pool[a] := cell;
        a := a + 1;
      }
    }

    /** RedHeapAlloc(): take the first smallest free block that fits, if any.  A
        size so large that its 32-bit rounding is less than a header has the
        block split inside its own header. */
    method RedHeapAlloc(size: nat) returns (mem: Address, ghost i: nat)
      requires Valid() && size < UINT32_LIMIT
      modifies this, pool
      ensures HDR <= Requested32(size) ==> Valid() && Allocated(old(blocks), old(pool[..]), blocks, pool[..], Requested32(size), mem, i)
      ensures mem.At? && HDR <= Requested32(size) ==>
                (Requested32(size) >= size + HDR <==> Requested(size) < UINT32_LIMIT)
    {
      hide Allocated;
      RequestWraps(size);
      mem, i := Null, 0;
      if Requested32(size) < HDR {
        Wreck();
      } else {
        mem, i := Allocate(Requested32(size));
      }
    }

    /** RedHeapAlloc(), for a request that can be met. */
    method Allocate(request: nat) returns (mem: Address, ghost i: nat)
      requires Valid() && HDR <= request && Aligned(request)
      modifies this, pool
      ensures Valid() && Allocated(old(blocks), old(pool[..]), blocks, pool[..], request, mem, i)
    {
      hide AllocBytes, AllocCount, Coalesced, Aligned;
      ghost var bs := blocks;
      ghost var before := pool[..];
      var best;
      best, i := FindBestFit(request);
      mem := Null;
      if best.At? {
        assert BlockOk(before, bs, i);
        HeapBlockAlloc(best.at, request, i);
        mem := At(best.at + HDR);
        TakenKeeps(before, bs, i, request, pool[..]);
      } else {
        KeptSelf(bs, before);
      }
    }

    /** The search of RedHeapAlloc(). */
    method FindBestFit(request: nat) returns (best: Address, ghost i: nat)
      requires Valid() && 0 < request
      ensures best == Null ==> forall k | 0 <= k < |blocks| :: !Fits(blocks, k, request)
      ensures best.At? ==> BestFit(blocks, i, request) && best.at == blocks[i].start
    {
      hide Aligned, AllocBytes, AllocCount, Coalesced;
      best, i := Null, 0;
      var bestSize := 0;
      assert BlockOk(pool[..], blocks, 0);
      var head := At(0);
      ghost var k: nat := 0;
      while head.At?
        invariant k <= |blocks| && (head == if k < |blocks| then At(blocks[k].start) else Null)
        invariant best == Null <==> bestSize == 0
        invariant best == Null ==> forall j | 0 <= j < k :: !Fits(blocks, j, request)
        invariant best.At? ==>
                    && i < k && best.at == blocks[i].start && bestSize == blocks[i].size && Fits(blocks, i, request)
                    && (forall j | 0 <= j < k && Fits(blocks, j, request) ::
                          blocks[j].size > bestSize || (blocks[j].size == bestSize && j >= i))
        decreases |blocks| - k
      {
        assert BlockOk(pool[..], blocks, k);
        var header := pool[head.at].header;
        if header.sentinel == Free {
          if header.size >= request && (bestSize == 0 || header.size < bestSize) {
            bestSize := header.size;
            best, i := head, k;
            if bestSize == request {
              break;
            }
          }
        } else if header.sentinel != Alloc {
          // A corrupted header: the program gives up here.
          assert false;
        }
        head := header.next;
        k := k + 1;
      }
    }

    /** The sentinel test on the header before `mem`, which may be any pointer in
        range: it accepts what was handed out, and payload that reads like a
        header. */
    method FindHanded(mem: int) returns (accepted: bool, ghost i: nat)
      requires Valid() && RangeTest(mem, pool.Length)
      ensures accepted <==> (exists k: nat :: Handed(blocks, k, mem)) || Forged(pool[..], mem)
      ensures accepted && !Forged(pool[..], mem) ==> Handed(blocks, i, mem) && BlockOk(pool[..], blocks, i)
      ensures accepted ==> (Forged(pool[..], mem) <==> !pool[mem - HDR].Head?)
    {
      hide Aligned, AllocBytes, AllocCount, Coalesced;
      var a := mem - HDR;
      if pool[a].Head? {
        accepted := pool[a].header.sentinel == Alloc;
      } else {
        accepted := [pool[a].Byte(), pool[a + 1].Byte(), pool[a + 2].Byte(), pool[a + 3].Byte()] == SentinelBytes(Alloc);
      }
      i := AcceptedIs(pool[..], blocks, mem);
    }

    /** RedHeapFree(): free what was handed out at `mem`; any other pointer is
        refused and changes nothing, unless payload before it reads like the
        header of a block in use. */
    method RedHeapFree(mem: int) returns (ghost freed: bool, ghost i: nat)
      requires Valid()
      modifies this, pool
      ensures freed <==> RangeTest(mem, pool.Length) && (old(exists k: nat :: Handed(blocks, k, mem)) || Forged(old(pool[..]), mem))
      ensures !Forged(old(pool[..]), mem) ==>
                && Valid()
                && (freed ==> Handed(old(blocks), i, mem) && blocks == Freed(old(blocks), i))
                && (freed ==> OthersKept(old(blocks), old(pool[..]), blocks, pool[..], i))
                && (!freed ==> blocks == old(blocks) && pool[..] == old(pool[..]))
    {
      hide Aligned, AllocBytes, AllocCount, Coalesced, Spells;
      ghost var bs := blocks;
      ghost var before := pool[..];
      freed, i := false, 0;
      if !RangeTest(mem, pool.Length) {
        return;
      }
      var accepted;
      accepted, i := FindHanded(mem);
      if !accepted {
        return;
      }
      freed := true;
      if !pool[mem - HDR].Head? {
        Wreck();
        return;
      }
      var _ := HeapBlockFree(mem - HDR, i);
      FreedKeeps(before, bs, i, pool[..]);
    }

    /** RedHeapCheck(): walk the headers and compare them with the counters. */
    method RedHeapCheck() returns (result: int)
      requires Valid()
      ensures result == 0
    {
      hide Aligned, Coalesced;
      var corrupt := false;
      var inUse, free, bytesInUse := 0, 0, 0;
      assert BlockOk(pool[..], blocks, 0);
      var head := At(0);
      ghost var k: nat := 0;
      while head.At? && !corrupt
        invariant !corrupt && k <= |blocks| && (head == if k < |blocks| then At(blocks[k].start) else Null)
        invariant inUse == AllocCount(blocks[..k]) && bytesInUse == AllocBytes(blocks[..k])
        invariant inUse + free == k
        decreases |blocks| - k
      {
        assert BlockOk(pool[..], blocks, k);
        CountsNext(blocks, k);
        var header := pool[head.at].header;
        if header.sentinel == Free {
          free := free + 1;
        } else if header.sentinel == Alloc {
          inUse := inUse + 1;
          bytesInUse := bytesInUse + header.size;
        } else {
          corrupt := true;
        }
        if k + 1 < |blocks| {
          assert BlockOk(pool[..], blocks, k + 1);
        }
        if k > 0 {
          assert BlockOk(pool[..], blocks, k - 1);
        }
        if header.next.At? && pool[header.next.at].header.prev != head {
          corrupt := true;
        }
        if header.prev.At? && pool[header.prev.at].header.next != head {
          corrupt := true;
        }
        if header.next.At? && header.next.at - head.at != header.size {
          corrupt := true;
        }
        head := header.next;
        k := k + 1;
      }
      assert blocks[..k] == blocks;
      corrupt := corrupt || bytesInUse != allocBytes || inUse != allocCount || free != totalCount - allocCount;
      result := if corrupt then -1 else 0;
    }

    /** The search of RedHeapRealloc() for a block to hold block `i` at its new
        size: the block itself merged with its free neighbours, or a smaller
        free block elsewhere. */
    method FindForRealloc(current: nat, request: nat, ghost i: nat) returns (best: Address, ghost j: nat)
      requires Valid() && i + 1 < |blocks| && !blocks[i].free && blocks[i].start == current && 0 < request
      ensures best == Null ==> NoRoom(blocks, i, request)
      ensures best.At? && InPlace(blocks, i, best.at) ==> FreedSize(blocks, i) >= request
      ensures best.At? && !InPlace(blocks, i, best.at) ==>
                j + 1 < |blocks| && j != i && Fits(blocks, j, request) && blocks[j].start == best.at
    {
      hide Aligned, AllocBytes, AllocCount, Coalesced, FreedSize, FreedStart, Tiled, Chosen;
      j := 0;
      var bestSize;
      best, bestSize := MergedRegion(current, i);
      ghost var merged := true;
      if bestSize < request {
        best, bestSize := Null, 0;
      }
      ChosenFirst(blocks, i, request, best, bestSize);
      TiledAt(pool[..], blocks, 0);
      var head := At(0);
      ghost var k: nat := 0;
      while head.At?
        invariant k <= |blocks| && (head == if k < |blocks| then At(blocks[k].start) else Null)
        invariant Chosen(blocks, i, request, best, bestSize, j, merged, k)
        decreases |blocks| - k
      {
        TiledAt(pool[..], blocks, k);
        if head == best {
          ChosenRegion(pool[..], blocks, i, request, best, bestSize, j, merged, k);
          k := AfterRegion(pool[..], blocks, i, k);
          ChosenAfter(blocks, i, request, best, bestSize, j, merged, k);
          head := At(best.at + bestSize);
          continue;
        }
        var header := pool[head.at].header;
        ChosenNext(blocks, i, request, best, bestSize, j, merged, k);
        if header.sentinel == Free {
          if header.size >= request && (bestSize == 0 || header.size < bestSize) {
            best, j, merged := head, k, false;
            bestSize := header.size;
            if bestSize == request {
              k := k + 1;
              break;
            }
          }
        } else if header.sentinel != Alloc {
          // A corrupted header: the program gives up here.
          assert false;
        }
        head := header.next;
        k := k + 1;
      }
      ChosenLast(pool[..], blocks, i, request, best, bestSize, j, merged, k, head);
    }

    /** Where the block that freeing block `i` would make starts, and its size. */
    method MergedRegion(current: nat, ghost i: nat) returns (best: Address, bestSize: nat)
      requires Valid() && i + 1 < |blocks| && !blocks[i].free && blocks[i].start == current
      ensures best == At(FreedStart(blocks, i)) && bestSize == FreedSize(blocks, i) > 0
    {
      hide Aligned, AllocBytes, AllocCount, Coalesced;
      assert BlockOk(pool[..], blocks, i) && BlockOk(pool[..], blocks, i + 1);
      var header := pool[current].header;
      best, bestSize := At(current), header.size;
      if header.next.At? && pool[header.next.at].header.sentinel == Free {
        bestSize := bestSize + pool[header.next.at].header.size;
      }
      if header.prev.At? {
        assert BlockOk(pool[..], blocks, i - 1);
        if pool[header.prev.at].header.sentinel == Free {
          bestSize := bestSize + pool[header.prev.at].header.size;
          best := header.prev;
        }
      }
    }

    /** Copy data into free block `f`, as RedMemMove() or RedMemCpy() does. */
    method CopyData(dst: nat, src: nat, length: nat, ghost f: nat)
      requires Valid() && f < |blocks| && blocks[f].free
      requires blocks[f].start + HDR <= dst && dst + length <= blocks[f].End() <= pool.Length
      requires src + length <= pool.Length && forall a | src <= a < src + length :: !Live(pool[a])
      requires dst <= src || src + length <= dst
      modifies pool
      ensures Valid()
      ensures HoldsAt(pool[..], dst, old(pool[src..src + length]))
      ensures OthersKept(blocks, old(pool[..]), blocks, pool[..], -1)
    {
      hide Aligned, AllocBytes, AllocCount, Coalesced;
      ghost var before := pool[..];
      if dst <= src < dst + length {
        MemMove(pool, dst, src, length);
      } else {
        MemCopyApart(pool, dst, src, length);
      }
      InteriorMoved(before, blocks, f, dst, src, length);
    }

    /** The part of RedHeapRealloc() that resizes a block where it is, or slides
        its data down into the free block before it. */
    method ReallocInPlace(mem: nat, size: nat, ghost i: nat) returns (result: nat)
      requires Valid() && Handed(blocks, i, mem) && BlockOk(pool[..], blocks, i)
      requires FreedSize(blocks, i) >= Requested(size)
      modifies this, pool
      ensures Valid() && blocks == Taken(Freed(old(blocks), i), FreedIndex(old(blocks), i), Requested(size))
      ensures Resized(old(blocks), old(pool[..]), blocks, pool[..], i, FreedIndex(old(blocks), i), size, result)
    {
      RequestedFits(size);
      hide Aligned, AllocBytes, AllocCount, Coalesced, Freed, Taken, FreedSize, FreedStart, FreedIndex, Requested, OthersKept, DataKept, Resized, HoldsAt;
      ghost var bs0, pool0 := blocks, pool[..];
      ghost var f := FreedIndex(bs0, i);
      var request := Requested(size);
      var blockSize := pool[mem - HDR].header.size;
      var copySize := if size < blockSize - HDR then size else blockSize - HDR;
      ghost var data := pool0[mem..mem + copySize];
      var best := HeapBlockFree(mem - HDR, i);
      ghost var bs1, pool1 := blocks, pool[..];
      FreedAt(bs0, i);
      FreedKeeps(pool0, bs0, i, pool1);
      FreedSpan(pool0, bs0, i);
      KeptSlice(bs0[i], pool0, pool1, copySize);
      HeldSlice(pool1, mem, data);
      KeptSelf(bs1, pool1);
      result := best + HDR;
      if result != mem {
        InteriorDead(pool1, bs1, f, mem, copySize);
        CopyData(result, mem, copySize, f);
      }
      ghost var pool2 := pool[..];
      HeapBlockAlloc(best, request, f);
      ghost var bs3, pool3 := blocks, pool[..];
      TakenKeeps(pool2, bs1, f, request, pool3);
      TakenHands(pool2, bs1, f, request, pool3, result, data);
      KeptTrans(bs0, pool0, bs1, pool1, bs1, pool2, i);
      KeptTrans(bs0, pool0, bs1, pool2, bs3, pool3, i);
      IsResized(bs0, pool0, bs3, pool3, i, f, size, mem, result, copySize);
    }

    /** The part of RedHeapRealloc() that moves a block's data into another
        block, `j`, and then frees the old one. */
    method ReallocElsewhere(best: nat, mem: nat, size: nat, ghost i: nat, ghost j: nat) returns (result: nat, ghost at: nat)
      requires Valid() && Handed(blocks, i, mem) && BlockOk(pool[..], blocks, i)
      requires j + 1 < |blocks| && j != i && Fits(blocks, j, Requested(size)) && blocks[j].start == best
      modifies this, pool
      ensures Valid() && TakenIndex(old(blocks), j, Requested(size), i) + 1 < |Taken(old(blocks), j, Requested(size))|
      ensures blocks == Freed(Taken(old(blocks), j, Requested(size)), TakenIndex(old(blocks), j, Requested(size), i))
      ensures Resized(old(blocks), old(pool[..]), blocks, pool[..], i, at, size, result)
    {
      RequestedFits(size);
      hide Aligned, AllocBytes, AllocCount, Coalesced, Freed, Taken, Requested, OthersKept, DataKept, Resized, HoldsAt;
      ghost var bs0, pool0 := blocks, pool[..];
      var request := Requested(size);
      var blockSize := pool[mem - HDR].header.size;
      var copySize := if size < blockSize - HDR then size else blockSize - HDR;
      ghost var data := pool0[mem..mem + copySize];
      result := best + HDR;
      InteriorDead(pool0, bs0, i, mem, copySize);
      assert BlockOk(pool0, bs0, j);
      CopyData(result, mem, copySize, j);
      ghost var pool1 := pool[..];
      HeapBlockAlloc(best, request, j);
      ghost var bs2, pool2 := blocks, pool[..];
      TakenKeeps(pool1, bs0, j, request, pool2);
      TakenHands(pool1, bs0, j, request, pool2, result, data);
      ghost var i' := TakenIndex(bs0, j, request, i);
      TakenAt(bs0, j, request, i);
      var _ := HeapBlockFree(mem - HDR, i');
      ghost var bs3, pool3 := blocks, pool[..];
      FreedKeeps(pool2, bs2, i', pool3);
      FreedHands(pool2, bs2, i', j, pool3, result, data);
      at := FreedShift(bs2, i', j);
      KeptTrans(bs0, pool0, bs0, pool1, bs2, pool2, -1);
      KeptExcept(pool0, bs0, pool2, bs2, pool3, bs3, i, i');
      IsResized(bs0, pool0, bs3, pool3, i, at, size, mem, result, copySize);
    }

    /** RedHeapRealloc().  On success the block is handed out again, at `result`,
        as block `at` of the list.  Nothing is known if payload is taken for a
        header, nor of a size whose 32-bit rounding wraps. */
    method RedHeapRealloc(mem: int, size: nat) returns (result: Address, ghost i: nat, ghost at: nat)
      requires Valid() && size < UINT32_LIMIT
      modifies this, pool
      ensures size == 0 ==> result == Null
      ensures !Forged(old(pool[..]), mem) && Requested(size) < UINT32_LIMIT ==>
                && Valid()
                && Reallocated(old(blocks), old(pool[..]), blocks, pool[..], mem, size, result, i, at)
    {
      hide Aligned, AllocBytes, AllocCount, Coalesced, Freed, Spells, Reallocated, Requested32;
      at := 0;
      if size == 0 {
        ghost var freed;
        freed, i := RedHeapFree(mem);
        ReallocFrees(old(blocks), old(pool[..]), blocks, pool[..], mem, freed, i);
        return Null, i, at;
      }
      i := 0;
      result := Null;
      NothingReallocated(blocks, pool[..], mem, size);
      if !RangeTest(mem, pool.Length) {
        return;
      }
      var accepted;
      accepted, i := FindHanded(mem);
      if !accepted {
        return;
      }
      RequestWraps(size);
      if !pool[mem - HDR].Head? || Requested32(size) < size + HDR {
        Wreck();
      } else {
        result, at := Reallocate(mem, size, i);
      }
    }

    /** RedHeapRealloc(), of a block that was handed out to a size that is not
        too large. */
    method Reallocate(mem: int, size: nat, ghost i: nat) returns (result: Address, ghost at: nat)
      requires Valid() && Handed(blocks, i, mem) && BlockOk(pool[..], blocks, i) && RangeTest(mem, pool.Length) && size > 0
      modifies this, pool
      ensures Valid() && Reallocated(old(blocks), old(pool[..]), blocks, pool[..], mem, size, result, i, at)
    {
      hide Aligned, AllocBytes, AllocCount, Coalesced, Freed, Taken, Resized, Requested;
      at := 0;
      result := Null;
      var current := mem - HDR;
      RequestedFits(size);
      var best;
      ghost var j;
      best, j := FindForRealloc(current, Requested(size), i);
      if best.At? {
        if i > 0 {
          assert BlockOk(pool[..], blocks, i - 1);
        }
        var newMem;
        if best.at == current || best == pool[current].header.prev {
          newMem := ReallocInPlace(mem, size, i);
          at := FreedIndex(old(blocks), i);
        } else {
          newMem, at := ReallocElsewhere(best.at, mem, size, i, j);
        }
        result := At(newMem);
      }
    }

    /** RedHeapCalloc(): room for `elements` aligned elements, zeroed.  Nothing is
        known of a total whose 32-bit rounding wraps: it zeroes more than it got. */
    method RedHeapCalloc(elements: nat, elementSize: nat) returns (mem: Address, ghost i: nat)
      requires Valid() && elements < UINT32_LIMIT && elementSize < UINT32_LIMIT
      modifies this, pool
      ensures Rounded(elementSize) >= UINT32_LIMIT || CallocTotal(elements, elementSize) >= UINT32_LIMIT ==>
                mem == Null && Valid() && blocks == old(blocks) && pool[..] == old(pool[..])
      ensures Rounded(elementSize) < UINT32_LIMIT && CallocTotal(elements, elementSize) + HDR < UINT32_LIMIT ==>
                && Valid()
                && Cleared(old(blocks), old(pool[..]), blocks, pool[..], CallocTotal(elements, elementSize), mem, i)
                && (mem == Null <==> NoneFits(old(blocks), CallocTotal(elements, elementSize) + HDR))
    {
      hide Aligned, AllocBytes, AllocCount, Coalesced, Requested, Requested32, ElementSize, CallocSize, CallocOverflows, CallocTotal, Rounded, NoneFits, Cleared;
      CallocOverflowIs(elements, elementSize);
      mem, i := Null, 0;
      if !CallocOverflows(elements, elementSize) {
        CallocFits(elements, elementSize);
        var size := CallocSize(elements, elementSize);
        RequestWraps(size);
        if Requested32(size) < size + HDR {
          Wreck();
        } else {
          mem, i := AllocateCleared(size);
        }
      }
    }

    /** RedHeapCalloc(), for a total that is not too large. */
    method AllocateCleared(size: nat) returns (mem: Address, ghost i: nat)
      requires Valid() && Requested(size) < UINT32_LIMIT
      modifies this, pool
      ensures Valid() && Cleared(old(blocks), old(pool[..]), blocks, pool[..], size, mem, i)
      ensures mem == Null <==> NoneFits(old(blocks), Requested(size))
    {
      hide Aligned, AllocBytes, AllocCount, Coalesced, Requested, OthersKept, Rounded, NoneFits;
      RequestedFits(size);
      mem, i := Allocate(Requested(size));
      if mem.At? {
        ghost var before := pool[..];
        assert BlockOk(before, blocks, i);
        forall a | mem.at <= a < mem.at + size {
          pool[a] := Data(0);
        }
        InteriorTiled(before, blocks, i, pool[..]);
        TakenWithin(old(blocks), i, Requested(size));
        ZeroingKeeps(old(pool[..]), old(blocks), i, blocks, before, pool[..]);
      }
    }

    method Split(block: nat, request: nat, ghost bs: seq<Block>, ghost i: nat)
      requires i + 1 < |bs| && bs[i].start == block && bs[i].free
      requires BlockOk(pool[..], bs, i) && BlockOk(pool[..], bs, i + 1)
      requires HDR <= request && request + HDR < bs[i].size
      modifies pool
      ensures pool[block] == Head(HeaderOf(Taken(bs, i, request), i))
      ensures pool[block + request] == Head(HeaderOf(Taken(bs, i, request), i + 1))
      ensures pool[bs[i].End()] == Head(HeaderOf(Taken(bs, i, request), i + 2))
      ensures forall a | block + request < a < block + request + HDR :: pool[a].Inside?
      ensures forall a | 0 <= a < pool.Length && !HeaderCell(bs, i, request, a) :: pool[a] == old(pool[a])
    {
      hide Aligned;
      var header := pool[block].header;
      var next := header.next.at;
      var rest := block + request;
      WriteHeader(rest, Header(Free, header.size - request, header.next, At(block)));
      pool[next] := Head(pool[next].header.(prev := At(rest)));
      pool[block] := Head(pool[block].header.(next := At(rest), size := request, sentinel := Alloc));
    }
  }

  lemma InitialTiled(pool: seq<Cell>, bs: seq<Block>)
    requires Aligned(|pool|) && 2 * HDR <= |pool|
    requires bs == [Block(0, |pool| - HDR, true), Block(|pool| - HDR, HDR, false)]
    requires pool[0] == Head(HeaderOf(bs, 0)) && pool[|pool| - HDR] == Head(HeaderOf(bs, 1))
    requires forall a | 0 <= a < |pool| && a != 0 && a != |pool| - HDR :: !Live(pool[a])
    ensures Tiled(pool, bs) && AllocCount(bs) == 1 && AllocBytes(bs) == HDR
  {
    assert Aligned(HDR);
    AlignedSums(|pool|, HDR);
    hide Aligned;
    CountsTwo(bs[0], bs[1]);
    CountsOne(bs[0]);
    CountsOne(bs[1]);
    assert BlockOk(pool, bs, 0);
    assert BlockOk(pool, bs, 1);
  }

  /** The headers merging block `i` with the next one writes. */
  ghost predicate MergedCell(bs: seq<Block>, i: nat, a: nat)
    requires i + 1 < |bs|
  {
    a == bs[i].start || a == bs[i + 1].start || a == bs[i + 1].End()
  }

  /** The headers HeapBlockFree() may write: those around the freed block. */
  ghost predicate FreedCell(bs: seq<Block>, i: nat, a: nat)
    requires i + 1 < |bs|
  {
    || (i > 0 && a == bs[i - 1].start)
    || a == bs[i].start
    || a == bs[i + 1].start
    || a == bs[i].End()
    || a == bs[i + 1].End()
  }

  lemma MarkedTiled(pool: seq<Cell>, bs: seq<Block>, i: nat, pool': seq<Cell>)
    requires Tiled(pool, bs) && i + 1 < |bs| && |pool'| == |pool| && BlockOk(pool, bs, i)
    requires pool'[bs[i].start] == Head(HeaderOf(bs, i).(sentinel := Free))
    requires forall a | 0 <= a < |pool| && a != bs[i].start :: pool'[a] == pool[a]
    ensures Tiled(pool', Marked(bs, i))
  {
    hide Aligned;
    var bs' := Marked(bs, i);
    assert BlockOk(pool, bs, i + 1);
    assert BlockOk(pool', bs', i);
    assert HeaderOf(bs', i + 1) == HeaderOf(bs, i + 1);
    Splice(pool, bs, i, 1, [bs[i].(free := true)], pool');
  }

  lemma MergedTiled(pool: seq<Cell>, bs: seq<Block>, i: nat, pool': seq<Cell>)
    requires Tiled(pool, bs) && i + 2 < |bs| && |pool'| == |pool| && bs[i].free
    requires BlockOk(pool, bs, i) && BlockOk(pool, bs, i + 1) && BlockOk(pool, bs, i + 2)
    requires pool'[bs[i].start] == Head(HeaderOf(Merged(bs, i), i))
    requires !Live(pool'[bs[i + 1].start])
    requires pool'[bs[i + 1].End()] == Head(HeaderOf(Merged(bs, i), i + 1))
    requires forall a | 0 <= a < |pool| && !MergedCell(bs, i, a) :: pool'[a] == pool[a]
    ensures Tiled(pool', Merged(bs, i))
  {
    MergedBlock(pool, bs, i, pool');
    hide Aligned;
    var put := MergedSpan(pool, bs, i);
    hide BlockOk, SameSpan, Merged, Replaced, Ordered, HeaderOf;
    Splice(pool, bs, i, 2, put, pool');
  }

  lemma MergedBlock(pool: seq<Cell>, bs: seq<Block>, i: nat, pool': seq<Cell>)
    requires i + 2 < |bs| && |pool'| == |pool| && bs[i].free
    requires BlockOk(pool, bs, i) && BlockOk(pool, bs, i + 1) && BlockOk(pool, bs, i + 2)
    requires pool'[bs[i].start] == Head(HeaderOf(Merged(bs, i), i))
    requires !Live(pool'[bs[i + 1].start])
    requires forall a | 0 <= a < |pool| && !MergedCell(bs, i, a) :: pool'[a] == pool[a]
    ensures BlockOk(pool', Merged(bs, i), i)
  {
    AlignedSums(bs[i].size, bs[i + 1].size);
    hide Aligned;
  }

  lemma MergedSpan(pool: seq<Cell>, bs: seq<Block>, i: nat) returns (put: seq<Block>)
    requires i + 2 < |bs| && BlockOk(pool, bs, i) && BlockOk(pool, bs, i + 1) && BlockOk(pool, bs, i + 2)
    ensures |put| == 1 && SameSpan(bs, i, 2, put) && Merged(bs, i) == Replaced(bs, i, 2, put)
    ensures bs[i + 1].End() == bs[i + 2].start < |pool| && bs[i].start <= bs[i + 1].start <= bs[i + 2].start
  {
    put := [Merged(bs, i)[i]];
    hide Aligned;
  }

  lemma MarkedEnds(pool: seq<Cell>, bs: seq<Block>, i: nat)
    requires Tiled(pool, bs) && i + 1 < |bs|
    ensures bs[i].End() == bs[i + 1].start && bs[i].start < |pool|
  {
    assert BlockOk(pool, bs, i);
  }

  lemma MarkedCounts(bs: seq<Block>, i: nat)
    requires i < |bs| && !bs[i].free
    ensures AllocCount(Marked(bs, i)) == AllocCount(bs) - 1
    ensures AllocBytes(Marked(bs, i)) == AllocBytes(bs) - bs[i].size
  {
    hide AllocCount, AllocBytes;
    assert bs[i..i + 1] == [bs[i]];
    CountsOne(bs[i]);
    CountsOne(bs[i].(free := true));
    CountsReplaced(bs, i, 1, [bs[i].(free := true)]);
  }

  lemma MergedCounts(bs: seq<Block>, i: nat)
    requires i + 1 < |bs| && bs[i].free && bs[i + 1].free
    ensures AllocCount(Merged(bs, i)) == AllocCount(bs)
    ensures AllocBytes(Merged(bs, i)) == AllocBytes(bs)
  {
    hide AllocCount, AllocBytes;
    assert bs[i..i + 2] == [bs[i], bs[i + 1]];
    CountsOne(bs[i]);
    CountsOne(bs[i + 1]);
    CountsTwo(bs[i], bs[i + 1]);
    CountsOne(Merged(bs, i)[i]);
    CountsReplaced(bs, i, 2, [Merged(bs, i)[i]]);
  }

  ghost predicate Fits(bs: seq<Block>, i: nat, request: nat)
    requires i < |bs|
  {
    bs[i].free && bs[i].size >= request
  }

  ghost predicate NoneFits(bs: seq<Block>, request: nat) {
    forall k | 0 <= k < |bs| :: !Fits(bs, k, request)
  }

  /** Block `i` is the first of the smallest free blocks that fit. */
  ghost predicate BestFit(bs: seq<Block>, i: nat, request: nat) {
    && i < |bs| && Fits(bs, i, request)
    && forall j | 0 <= j < |bs| && Fits(bs, j, request) ::
         bs[j].size > bs[i].size || (bs[j].size == bs[i].size && j >= i)
  }

  lemma RequestedFits(size: nat)
    ensures Aligned(Requested(size)) && Requested(size) >= size + HDR
  {
    AlignedSums(Rounded(size), HDR);
  }

  lemma TakenKeeps(pool: seq<Cell>, bs: seq<Block>, i: nat, request: nat, pool': seq<Cell>)
    requires Tiled(pool, bs) && i < |bs| && bs[i].free && |pool'| == |pool| && HDR <= request
    requires forall a | 0 <= a < |pool| && !HeaderCell(bs, i, request, a) :: pool'[a] == pool[a]
    ensures OthersKept(bs, pool, Taken(bs, i, request), pool', -1)
  {
    hide Aligned;
    var bs' := Taken(bs, i, request);
    forall k | 0 <= k < |bs| && !bs[k].free
      ensures bs[k] in bs' && DataKept(bs[k], pool, pool')
    {
      assert bs[k] == if k < i then bs'[k] else bs'[k + |bs'| - |bs|];
      assert BlockOk(pool, bs, i) && BlockOk(pool, bs, k);
      if i + 1 < |bs| {
        assert BlockOk(pool, bs, i + 1);
      }
    }
  }

  /** Addresses that mean "stay where it is, or slide into the previous block". */
  ghost predicate InPlace(bs: seq<Block>, i: nat, at: nat)
    requires i < |bs|
  {
    at == bs[i].start || (i > 0 && at == bs[i - 1].start)
  }

  lemma StaysInPlace(bs: seq<Block>, i: nat)
    requires i < |bs|
    ensures InPlace(bs, i, FreedStart(bs, i))
  {
  }

  ghost predicate NoRoom(bs: seq<Block>, i: nat, request: nat)
    requires i + 1 < |bs|
  {
    FreedSize(bs, i) < request && NoneFits(bs, request)
  }

  /** The block after the region that freeing block `i` would merge. */
  lemma AfterRegion(pool: seq<Cell>, bs: seq<Block>, i: nat, k: nat) returns (after: nat)
    requires Tiled(pool, bs) && i + 1 < |bs| && k < |bs| && bs[k].start == FreedStart(bs, i)
    ensures k < after < |bs| && bs[after].start == FreedStart(bs, i) + FreedSize(bs, i)
  {
    hide Aligned;
    assert BlockOk(pool, bs, i) && BlockOk(pool, bs, i + 1);
    if i > 0 {
      assert BlockOk(pool, bs, i - 1);
    }
    after := if bs[i + 1].free then i + 2 else i + 1;
    assert BlockOk(pool, bs, k);
  }

  /** Where the search of RedHeapRealloc() stands after the first `k` blocks: it
      has chosen the merged block, block `j`, or nothing yet. */
  ghost predicate Chosen(bs: seq<Block>, i: nat, request: nat, best: Address, bestSize: int, j: nat, merged: bool, k: nat) {
    && i + 1 < |bs| && k <= |bs| && 0 <= bestSize
    && (best == Null <==> bestSize == 0)
    && (best == Null ==> FreedSize(bs, i) < request && forall m | 0 <= m < k :: !Fits(bs, m, request))
    && (best.At? && merged ==> best.at == FreedStart(bs, i) && bestSize == FreedSize(bs, i) >= request)
    && (best.At? && !merged ==> j < k && best.at == bs[j].start && bestSize == bs[j].size && Fits(bs, j, request))
  }

  lemma ChosenFirst(bs: seq<Block>, i: nat, request: nat, best: Address, bestSize: int)
    requires i + 1 < |bs| && 0 < request
    requires if FreedSize(bs, i) < request then best == Null && bestSize == 0
             else best == At(FreedStart(bs, i)) && bestSize == FreedSize(bs, i)
    ensures Chosen(bs, i, request, best, bestSize, 0, true, 0)
  {
  }

  /** The search meets what it has chosen only if that is the merged block. */
  lemma ChosenRegion(pool: seq<Cell>, bs: seq<Block>, i: nat, request: nat, best: Address, bestSize: int, j: nat, merged: bool, k: nat)
    requires Tiled(pool, bs) && Chosen(bs, i, request, best, bestSize, j, merged, k)
    requires k < |bs| && best == At(bs[k].start)
    ensures merged && best.at == FreedStart(bs, i) && bestSize == FreedSize(bs, i) >= request
  {
    if !merged {
      StartsGrow(pool, bs, j, k);
    }
  }

  lemma ChosenAfter(bs: seq<Block>, i: nat, request: nat, best: Address, bestSize: int, j: nat, merged: bool, k: nat)
    requires i + 1 < |bs| && k <= |bs| && merged
    requires best.At? && bestSize > 0 && best.at == FreedStart(bs, i) && bestSize == FreedSize(bs, i) >= request
    ensures Chosen(bs, i, request, best, bestSize, j, merged, k)
  {
  }

  /** The next block is chosen if it is free, fits, and is smaller. */
  lemma ChosenNext(bs: seq<Block>, i: nat, request: nat, best: Address, bestSize: int, j: nat, merged: bool, k: nat)
    requires Chosen(bs, i, request, best, bestSize, j, merged, k) && k < |bs| && 0 < request
    ensures if bs[k].free && bs[k].size >= request && (bestSize == 0 || bs[k].size < bestSize)
            then Chosen(bs, i, request, At(bs[k].start), bs[k].size, k, false, k + 1)
            else Chosen(bs, i, request, best, bestSize, j, merged, k + 1)
  {
  }

  /** What the search has chosen in the end. */
  lemma ChosenLast(pool: seq<Cell>, bs: seq<Block>, i: nat, request: nat, best: Address, bestSize: int, j: nat, merged: bool, k: nat, head: Address)
    requires Tiled(pool, bs) && Chosen(bs, i, request, best, bestSize, j, merged, k) && !bs[i].free
    requires best == Null ==> k == |bs|
    ensures best == Null ==> NoRoom(bs, i, request)
    ensures best.At? && InPlace(bs, i, best.at) ==> FreedSize(bs, i) >= request
    ensures best.At? && !InPlace(bs, i, best.at) ==>
              j + 1 < |bs| && j != i && Fits(bs, j, request) && bs[j].start == best.at
  {
    StaysInPlace(bs, i);
    if best.At? && !merged {
      FoundElsewhere(pool, bs, i, j, request);
    }
  }

  lemma TiledAt(pool: seq<Cell>, bs: seq<Block>, k: nat)
    requires Tiled(pool, bs) && k < |bs|
    ensures BlockOk(pool, bs, k) && bs[0].start == 0
  {
    assert BlockOk(pool, bs, 0);
  }

  lemma StartsGrow(pool: seq<Cell>, bs: seq<Block>, j: nat, k: nat)
    requires Tiled(pool, bs) && j < k < |bs|
    ensures bs[j].start < bs[k].start
  {
    hide Aligned;
    assert BlockOk(pool, bs, j) && BlockOk(pool, bs, k);
  }

  lemma SameStart(pool: seq<Cell>, bs: seq<Block>, j: nat, k: nat)
    requires Tiled(pool, bs) && j < |bs| && k < |bs| && bs[j].start == bs[k].start
    ensures j == k
  {
    hide Aligned;
    assert BlockOk(pool, bs, j) && BlockOk(pool, bs, k);
  }

  /** A free block that fits is either elsewhere or the one before block `i`. */
  lemma FoundElsewhere(pool: seq<Cell>, bs: seq<Block>, i: nat, j: nat, request: nat)
    requires Tiled(pool, bs) && i + 1 < |bs| && !bs[i].free && j < |bs| && Fits(bs, j, request)
    ensures j + 1 < |bs| && j != i
    ensures InPlace(bs, i, bs[j].start) ==> FreedSize(bs, i) >= request
  {
    hide Aligned;
    assert BlockOk(pool, bs, j);
    if InPlace(bs, i, bs[j].start) {
      SameStart(pool, bs, j, if bs[j].start == bs[i].start then i else i - 1);
    }
  }

  /** What a successful RedHeapRealloc() of block `i` achieves: block `j` is
      handed out at `result`, holds as much of the old data as it can, and all
      other blocks in use are as they were. */
  ghost predicate Resized(bs: seq<Block>, pool: seq<Cell>, bs': seq<Block>, pool': seq<Cell>,
                          i: nat, j: nat, size: nat, result: nat)
  {
    && i < |bs| && Handed(bs', j, result) && bs'[j].size >= size + HDR
    && OthersKept(bs, pool, bs', pool', i)
    && HDR <= bs[i].size && bs[i].End() <= |pool|
    && var mem := bs[i].start + HDR;
       var kept := if size < bs[i].size - HDR then size else bs[i].size - HDR;
       HoldsAt(pool', result, pool[mem..mem + kept])
  }

  ghost predicate HoldsAt(pool: seq<Cell>, at: nat, data: seq<Cell>) {
    at + |data| <= |pool| && pool[at..at + |data|] == data
  }

  lemma IsResized(bs: seq<Block>, pool: seq<Cell>, bs': seq<Block>, pool': seq<Cell>,
                  i: nat, j: nat, size: nat, mem: nat, result: nat, kept: nat)
    requires i < |bs| && Handed(bs', j, result) && bs'[j].size >= size + HDR
    requires OthersKept(bs, pool, bs', pool', i)
    requires HDR <= bs[i].size && bs[i].End() <= |pool| && mem == bs[i].start + HDR
    requires kept == if size < bs[i].size - HDR then size else bs[i].size - HDR
    requires HoldsAt(pool', result, pool[mem..mem + kept])
    ensures Resized(bs, pool, bs', pool', i, j, size, result)
  {
  }

  lemma InteriorMoved(before: seq<Cell>, bs: seq<Block>, f: nat, dst: nat, src: nat, length: nat)
    requires Tiled(before, bs) && f < |bs| && bs[f].free
    requires bs[f].start + HDR <= dst && dst + length <= bs[f].End() <= |before|
    requires src + length <= |before| && forall a | src <= a < src + length :: !Live(before[a])
    ensures var after := Moved(before, dst, src, length);
            && HoldsAt(after, dst, before[src..src + length])
            && Tiled(after, bs)
            && OthersKept(bs, before, bs, after, -1)
  {
    var after := Moved(before, dst, src, length);
    MovedCells(before, dst, src, length, after);
    hide Moved, Aligned;
    assert BlockOk(before, bs, f);
    InteriorTiled(before, bs, f, after);
    InteriorKeeps(before, bs, f, after);
  }

  lemma MovedCells(before: seq<Cell>, dst: nat, src: nat, length: nat, after: seq<Cell>)
    requires dst + length <= |before| && src + length <= |before| && after == Moved(before, dst, src, length)
    ensures |after| == |before| && HoldsAt(after, dst, before[src..src + length])
    ensures forall a | 0 <= a < |before| && !(dst <= a < dst + length) :: after[a] == before[a]
    ensures forall a | dst <= a < dst + length :: after[a] == before[a - dst + src]
  {
  }

  /** Writing inside a free block keeps what the others hold. */
  lemma InteriorKeeps(pool: seq<Cell>, bs: seq<Block>, f: nat, pool': seq<Cell>)
    requires Tiled(pool, bs) && f < |bs| && bs[f].free && |pool'| == |pool|
    requires forall a | 0 <= a < |pool| && !(bs[f].start < a < bs[f].End()) :: pool'[a] == pool[a]
    ensures OthersKept(bs, pool, bs, pool', -1)
  {
    hide Aligned;
    forall k | 0 <= k < |bs| && !bs[k].free
      ensures DataKept(bs[k], pool, pool')
    {
      assert BlockOk(pool, bs, k) && BlockOk(pool, bs, f);
    }
  }

  /** Writing data inside a block leaves the tiling alone. */
  lemma InteriorTiled(pool: seq<Cell>, bs: seq<Block>, f: nat, pool': seq<Cell>)
    requires Tiled(pool, bs) && f < |bs| && |pool'| == |pool|
    requires forall a | 0 <= a < |pool| && !(bs[f].start < a < bs[f].End()) :: pool'[a] == pool[a]
    requires forall a | bs[f].start < a < bs[f].End() && a < |pool| :: !Live(pool'[a])
    ensures Tiled(pool', bs)
  {
    hide Aligned;
    forall k | 0 <= k < |bs|
      ensures BlockOk(pool', bs, k)
    {
      assert BlockOk(pool, bs, k) && BlockOk(pool, bs, f);
    }
  }

  lemma InteriorDead(pool: seq<Cell>, bs: seq<Block>, f: nat, src: nat, length: nat)
    requires Tiled(pool, bs) && f < |bs| && bs[f].start < src && src + length <= bs[f].End()
    ensures src + length <= |pool| && bs[f].End() <= |pool|
    ensures forall a | src <= a < src + length :: !Live(pool[a])
  {
    assert BlockOk(pool, bs, f);
  }

  lemma KeptSlice(b: Block, pool: seq<Cell>, pool': seq<Cell>, count: nat)
    requires DataKept(b, pool, pool') && b.End() <= |pool| == |pool'| && HDR + count <= b.size
    ensures HoldsAt(pool', b.start + HDR, pool[b.start + HDR..b.start + HDR + count])
  {
  }

  lemma HeldSlice(pool: seq<Cell>, at: nat, data: seq<Cell>)
    requires HoldsAt(pool, at, data)
    ensures at + |data| <= |pool| && pool[at..at + |data|] == data
  {
  }

  lemma KeptSelf(bs: seq<Block>, pool: seq<Cell>)
    ensures OthersKept(bs, pool, bs, pool, -1)
  {
  }

  lemma KeptTrans(bs0: seq<Block>, pool0: seq<Cell>, bs1: seq<Block>, pool1: seq<Cell>, bs2: seq<Block>, pool2: seq<Cell>, i: int)
    requires OthersKept(bs0, pool0, bs1, pool1, i) && OthersKept(bs1, pool1, bs2, pool2, -1)
    ensures OthersKept(bs0, pool0, bs2, pool2, i)
  {
    forall k | 0 <= k < |bs0| && !bs0[k].free && k != i
      ensures bs0[k] in bs2 && DataKept(bs0[k], pool0, pool2)
    {
      var m :| 0 <= m < |bs1| && bs1[m] == bs0[k];
    }
  }

  lemma TakenHands(pool: seq<Cell>, bs: seq<Block>, f: nat, request: nat, pool': seq<Cell>, mem: nat, data: seq<Cell>)
    requires Tiled(pool, bs) && f < |bs| && bs[f].free && |pool'| == |pool|
    requires HDR + |data| <= request <= bs[f].size
    requires forall a | 0 <= a < |pool| && !HeaderCell(bs, f, request, a) :: pool'[a] == pool[a]
    requires mem == bs[f].start + HDR && HoldsAt(pool, mem, data)
    ensures Handed(Taken(bs, f, request), f, mem) && Taken(bs, f, request)[f].size >= request
    ensures HoldsAt(pool', mem, data)
  {
    hide Aligned;
    assert BlockOk(pool, bs, f);
  }

  /** The block that freeing block `i` makes spans block `i`. */
  lemma FreedSpan(pool: seq<Cell>, bs: seq<Block>, i: nat)
    requires Tiled(pool, bs) && i + 1 < |bs| && !bs[i].free
    ensures FreedStart(bs, i) <= bs[i].start && HDR <= bs[i].size
    ensures bs[i].End() <= FreedStart(bs, i) + FreedSize(bs, i) <= |pool|
  {
    hide Aligned;
    assert BlockOk(pool, bs, i) && BlockOk(pool, bs, i + 1);
    if i > 0 {
      assert BlockOk(pool, bs, i - 1);
    }
  }

  /** Where block `k` ends up in the list when free block `i` is taken. */
  ghost function TakenIndex(bs: seq<Block>, i: nat, request: nat, k: nat): nat
    requires i < |bs|
  {
    if k > i && bs[i].size > request + HDR then k + 1 else k
  }

  lemma TakenAt(bs: seq<Block>, i: nat, request: nat, k: nat)
    requires i < |bs| && k + 1 < |bs| && k != i
    ensures TakenIndex(bs, i, request, k) + 1 < |Taken(bs, i, request)|
    ensures Taken(bs, i, request)[TakenIndex(bs, i, request, k)] == bs[k]
    ensures TakenIndex(bs, i, request, k) != i
  {
  }

  /** Where block `k` ends up in the list when block `i` is freed. */
  ghost function FreedShift(bs: seq<Block>, i: nat, k: nat): nat
    requires i + 1 < |bs| && k < |bs| && k != i && !bs[k].free
  {
    FreedHasOther(bs, i, k);
    if k < i then k else k - |bs| + |Freed(bs, i)|
  }

  lemma FreedHands(pool: seq<Cell>, bs: seq<Block>, i: nat, k: nat, pool': seq<Cell>, mem: nat, data: seq<Cell>)
    requires Tiled(pool, bs) && i + 1 < |bs| && k < |bs| && k != i && !bs[i].free && Handed(bs, k, mem) && |pool'| == |pool|
    requires forall a | 0 <= a < |pool| && !FreedCell(bs, i, a) :: pool'[a] == pool[a]
    requires HoldsAt(pool, mem, data) && HDR + |data| <= bs[k].size
    ensures Handed(Freed(bs, i), FreedShift(bs, i, k), mem)
    ensures Freed(bs, i)[FreedShift(bs, i, k)] == bs[k]
    ensures HoldsAt(pool', mem, data)
  {
    hide Aligned, Freed;
    FreedHasOther(bs, i, k);
    FreedKeepsData(pool, bs, i, k, pool');
    assert BlockOk(pool, bs, k);
    KeptSlice(bs[k], pool, pool', |data|);
  }

  /** Keeping all blocks in use, and then all but block `i'`, which block `i`
      has become, keeps all but block `i`. */
  lemma KeptExcept(pool0: seq<Cell>, bs0: seq<Block>, pool1: seq<Cell>, bs1: seq<Block>, pool2: seq<Cell>, bs2: seq<Block>, i: nat, i': nat)
    requires Tiled(pool0, bs0) && i < |bs0| && i' < |bs1| && bs1[i'] == bs0[i]
    requires OthersKept(bs0, pool0, bs1, pool1, -1) && OthersKept(bs1, pool1, bs2, pool2, i')
    ensures OthersKept(bs0, pool0, bs2, pool2, i)
  {
    hide Aligned;
    forall k | 0 <= k < |bs0| && !bs0[k].free && k != i
      ensures bs0[k] in bs2 && DataKept(bs0[k], pool0, pool2)
    {
      var m :| 0 <= m < |bs1| && bs1[m] == bs0[k];
      assert BlockOk(pool0, bs0, i) && BlockOk(pool0, bs0, k);
    }
  }

  /** Writing to what was a free block keeps all blocks in use. */
  lemma ZeroingKeeps(pool0: seq<Cell>, bs0: seq<Block>, i: nat, bs1: seq<Block>, pool1: seq<Cell>, pool2: seq<Cell>)
    requires Tiled(pool0, bs0) && i < |bs0| && bs0[i].free
    requires OthersKept(bs0, pool0, bs1, pool1, -1) && |pool2| == |pool1|
    requires forall a | 0 <= a < |pool1| && !(bs0[i].start < a < bs0[i].End()) :: pool2[a] == pool1[a]
    ensures OthersKept(bs0, pool0, bs1, pool2, -1)
  {
    hide Aligned;
    forall k | 0 <= k < |bs0| && !bs0[k].free
      ensures bs0[k] in bs1 && DataKept(bs0[k], pool0, pool2)
    {
      assert BlockOk(pool0, bs0, i) && BlockOk(pool0, bs0, k);
    }
  }

  /** The size of one element in RedHeapCalloc(), in 32-bit arithmetic. */
  function ElementSize(elementSize: nat): nat {
    (elementSize + ALIGN - 1) / ALIGN * ALIGN % UINT32_LIMIT
  }

  predicate CallocOverflows(elements: nat, elementSize: nat) {
    || ElementSize(elementSize) < elementSize
    || (elements > 0 && ElementSize(elementSize) > (UINT32_LIMIT - 1) / elements)
  }

  function CallocSize(elements: nat, elementSize: nat): nat {
    if CallocOverflows(elements, elementSize) then 0 else ElementSize(elementSize) * elements
  }

  /** Room for so many elements, each rounded up. */
  function CallocTotal(elements: nat, elementSize: nat): nat {
    Rounded(elementSize) * elements
  }

  /** RedHeapCalloc() refuses exactly the totals that are no 32-bit numbers; what
      it asks for otherwise is that total, which needs no rounding. */
  lemma CallocOverflowIs(elements: nat, elementSize: nat)
    requires elements < UINT32_LIMIT && elementSize < UINT32_LIMIT
    ensures var total := CallocTotal(elements, elementSize);
            && (CallocOverflows(elements, elementSize) <==> Rounded(elementSize) >= UINT32_LIMIT || total >= UINT32_LIMIT)
            && (!CallocOverflows(elements, elementSize) ==> CallocSize(elements, elementSize) == total)
            && Requested(total) == total + HDR
  {
    var each := Rounded(elementSize);
    RoundingIsLeast(elementSize);
    if each < UINT32_LIMIT {
      QuotientIs(each, UINT32_LIMIT, 0, each);
      if elements > 0 {
        ProductFits(each, elements);
      }
    } else {
      QuotientIs(each, UINT32_LIMIT, 1, each - UINT32_LIMIT);
    }
    hide ElementSize;
    TotalAligned(each, elements);
  }

  lemma ProductFits(each: nat, elements: nat)
    requires elements > 0
    ensures each > (UINT32_LIMIT - 1) / elements <==> each * elements >= UINT32_LIMIT
  {
    var most, left := (UINT32_LIMIT - 1) / elements, (UINT32_LIMIT - 1) % elements;
    assert most * elements + left == UINT32_LIMIT - 1;
    if each <= most {
      MulMonotone(each, most, elements);
    } else {
      ProductGrows(most, each, elements);
    }
  }

  lemma TotalAligned(each: nat, elements: nat)
    requires Aligned(each)
    ensures Aligned(each * elements) && Rounded(each * elements) == each * elements
  {
    var k := each / ALIGN;
    assert each == k * ALIGN;
    MultipleAligned(k * elements);
    assert k * elements * ALIGN == each * elements;
  }

  /** What RedHeapCalloc() does not refuse has room for every element, and its
      size is a 32-bit number. */
  lemma CallocFits(elements: nat, elementSize: nat)
    requires elements < UINT32_LIMIT && !CallocOverflows(elements, elementSize)
    ensures elementSize * elements <= CallocSize(elements, elementSize) < UINT32_LIMIT
  {
    var each := ElementSize(elementSize);
    hide ElementSize;
    if elements > 0 {
      var most := (UINT32_LIMIT - 1) / elements;
      assert most * elements <= UINT32_LIMIT - 1;
      MulMonotone(each, most, elements);
      MulMonotone(elementSize, each, elements);
    }
  }

  lemma MulMonotone(a: nat, b: nat, c: nat)
    requires a <= b
    ensures a * c <= b * c
  {
    assert b * c - a * c == (b - a) * c;
  }

  lemma TakenWithin(bs: seq<Block>, i: nat, request: nat)
    requires i < |bs| && request <= bs[i].size
    ensures i < |Taken(bs, i, request)| && Taken(bs, i, request)[i].start == bs[i].start
    ensures Taken(bs, i, request)[i].End() <= bs[i].End()
  {
  }

  /** What allocating does, for a request that counts the header. */
  ghost predicate Allocated(bs: seq<Block>, pool: seq<Cell>, bs': seq<Block>, pool': seq<Cell>, request: nat, mem: Address, i: nat) {
    && (mem == Null <==> NoneFits(bs, request))
    && (mem == Null ==> bs' == bs && pool' == pool)
    && (mem.At? ==>
          && BestFit(bs, i, request) && bs' == Taken(bs, i, request)
          && Handed(bs', i, mem.at) && bs'[i].size >= request)
    && OthersKept(bs, pool, bs', pool', -1)
  }

  /** What allocating and clearing does. */
  ghost predicate Cleared(bs: seq<Block>, pool: seq<Cell>, bs': seq<Block>, pool': seq<Cell>, size: nat, mem: Address, i: nat) {
    && (mem == Null <==> NoneFits(bs, Requested(size)))
    && (mem == Null ==> bs' == bs && pool' == pool)
    && (mem.At? ==>
          && Handed(bs', i, mem.at) && mem.at + size <= bs'[i].End() <= |pool'|
          && forall a | mem.at <= a < mem.at + size :: pool'[a] == Data(0))
    && OthersKept(bs, pool, bs', pool', -1)
  }

  /** What resizing does to a pointer, whether or not it was handed out. */
  ghost predicate Reallocated(bs: seq<Block>, pool: seq<Cell>, bs': seq<Block>, pool': seq<Cell>,
                              mem: int, size: nat, result: Address, i: nat, at: nat)
  {
    && (size == 0 ==> result == Null)
    && (size == 0 && (exists k: nat :: Handed(bs, k, mem)) && RangeTest(mem, |pool|) ==>
          Handed(bs, i, mem) && bs' == Freed(bs, i) && OthersKept(bs, pool, bs', pool', i))
    && (result.At? ==> RangeTest(mem, |pool|) && Handed(bs, i, mem) && Resized(bs, pool, bs', pool', i, at, size, result.at))
    && (size > 0 && result == Null ==> bs' == bs && pool' == pool)
    && (size > 0 && result == Null ==>
          || !RangeTest(mem, |pool|)
          || (forall k: nat :: !Handed(bs, k, mem))
          || (Handed(bs, i, mem) && NoRoom(bs, i, Requested(size))))
  }

  lemma ReallocFrees(bs: seq<Block>, pool: seq<Cell>, bs': seq<Block>, pool': seq<Cell>, mem: int, freed: bool, i: nat)
    requires freed <==> RangeTest(mem, |pool|) && ((exists k: nat :: Handed(bs, k, mem)) || Forged(pool, mem))
    requires !Forged(pool, mem) ==>
               freed ==> Handed(bs, i, mem) && bs' == Freed(bs, i) && OthersKept(bs, pool, bs', pool', i)
    ensures !Forged(pool, mem) ==> Reallocated(bs, pool, bs', pool', mem, 0, Null, i, 0)
  {
  }

  lemma NothingReallocated(bs: seq<Block>, pool: seq<Cell>, mem: int, size: nat)
    requires size > 0
    ensures !RangeTest(mem, |pool|) || (forall k: nat :: !Handed(bs, k, mem)) ==>
              forall i: nat, at: nat :: Reallocated(bs, pool, bs, pool, mem, size, Null, i, at)
  {
  }

  /** Payload in range reads like the header of a block in use. */
  ghost predicate Forged(pool: seq<Cell>, mem: int) {
    RangeTest(mem, |pool|) && Spells(pool, mem - HDR)
  }

  /** What the sentinel test accepts was handed out, or is forged. */
  lemma AcceptedIs(pool: seq<Cell>, bs: seq<Block>, mem: int) returns (i: nat)
    requires Tiled(pool, bs) && RangeTest(mem, |pool|)
    ensures var cell := pool[mem - HDR];
            && ((exists k: nat :: Handed(bs, k, mem)) <==> cell.Head? && cell.header.sentinel == Alloc)
            && (cell.Head? && cell.header.sentinel == Alloc ==> Handed(bs, i, mem) && BlockOk(pool, bs, i))
  {
    hide Aligned;
    i := 0;
    var cell := pool[mem - HDR];
    if cell.Head? && cell.header.sentinel == Alloc {
      i := LiveHeader(pool, bs, mem - HDR);
      assert BlockOk(pool, bs, |bs| - 1);
      assert Handed(bs, i, mem);
    } else {
      forall k: nat
        ensures !Handed(bs, k, mem)
      {
        if k < |bs| {
          assert BlockOk(pool, bs, k);
        }
      }
    }
  }

  /** Payload that holds the sentinel of a block in use, one header before a
      pointer that was never handed out, has that pointer accepted. */
  lemma PayloadForges(pool: seq<Cell>, bs: seq<Block>, i: nat, mem: int, next: int, pool': seq<Cell>)
    requires Tiled(pool, bs) && Handed(bs, i, mem) && next == mem + HDR < bs[i].End() && RangeTest(next, |pool|)
    requires |pool'| == |pool| && forall a | 0 <= a < |pool| && !(mem <= a < mem + SENTINEL_SIZE) :: pool'[a] == pool[a]
    requires forall a | mem <= a < mem + SENTINEL_SIZE :: pool'[a] == Data(SentinelBytes(Alloc)[a - mem])
    ensures Tiled(pool', bs) && Forged(pool', next) && forall k: nat :: !Handed(bs, k, next)
  {
    hide Aligned;
    assert BlockOk(pool, bs, i);
    InteriorTiled(pool, bs, i, pool');
    forall k: nat
      ensures !Handed(bs, k, next)
    {
      if k < |bs| {
        assert BlockOk(pool, bs, k);
      }
    }
  }

  /** How a request wraps in 32 bits: it covers the size and a header exactly if
      it does not wrap; otherwise it is one header, or less than one. */
  lemma RequestWraps(size: nat)
    requires size < UINT32_LIMIT
    ensures Requested(size) < UINT32_LIMIT ==> Requested32(size) == Requested(size) >= size + HDR
    ensures Requested(size) >= UINT32_LIMIT ==> Requested32(size) < size + HDR
    ensures Requested32(size) >= size + HDR <==> Requested(size) < UINT32_LIMIT
    ensures Requested(size) >= UINT32_LIMIT && Requested32(size) >= HDR ==> Requested32(size) == HDR
    ensures Requested32(size) >= HDR ==> Aligned(Requested32(size))
  {
    RequestedFits(size);
    HeaderIsAligned();
    if size + ALIGN - 1 >= UINT32_LIMIT {
      RoundingWraps(size);
    } else {
      RoundingFits(size);
    }
    hide Requested, Requested32, Aligned;
  }

  lemma HeaderIsAligned()
    ensures Aligned(HDR) && HDR >= ALIGN
  {
    if HDR < ALIGN {
      QuotientIs(HDR, ALIGN, 0, HDR);
    }
  }

  /** Rounding up itself wraps: to nothing. */
  lemma RoundingWraps(size: nat)
    requires size < UINT32_LIMIT <= size + ALIGN - 1
    ensures Requested32(size) == HDR
  {
    var r := size + ALIGN - 1 - UINT32_LIMIT;
    QuotientIs(size + ALIGN - 1, UINT32_LIMIT, 1, r);
    QuotientIs(r, ALIGN, 0, r);
    QuotientIs(HDR, UINT32_LIMIT, 0, HDR);
  }

  /** Only adding the header can wrap. */
  lemma RoundingFits(size: nat)
    requires size + ALIGN - 1 < UINT32_LIMIT
    ensures Requested(size) < UINT32_LIMIT + HDR
    ensures Requested32(size) == if Requested(size) < UINT32_LIMIT then Requested(size) else Requested(size) - UINT32_LIMIT
  {
    var unit := size + ALIGN - 1;
    QuotientIs(unit, UINT32_LIMIT, 0, unit);
    assert unit == unit / ALIGN * ALIGN + unit % ALIGN;
    if Requested(size) < UINT32_LIMIT {
      QuotientIs(Requested(size), UINT32_LIMIT, 0, Requested(size));
    } else {
      QuotientIs(Requested(size), UINT32_LIMIT, 1, Requested(size) - UINT32_LIMIT);
    }
  }

  /** The pointer test of RedHeapFree() and RedHeapRealloc(). */
  predicate RangeTest(mem: int, poolSize: nat) {
    HDR <= mem < poolSize - 2 * HDR
  }

  /** The pointer test accepts what was handed out, save at the very end of the
      pool: there it refuses a last block with no more than a header's worth of
      room, and an empty block before an empty last one. */
  lemma RangeTestAccepts(pool: seq<Cell>, bs: seq<Block>, i: nat, mem: int)
    requires Tiled(pool, bs) && Handed(bs, i, mem)
    ensures RangeTest(mem, |pool|) <==>
              && !(i + 2 == |bs| && bs[i].size <= 2 * HDR)
              && !(i + 3 == |bs| && bs[i].size == HDR && bs[i + 1].size == HDR)
  {
    hide Aligned;
    var last := |bs| - 1;
    assert BlockOk(pool, bs, i) && BlockOk(pool, bs, i + 1) && BlockOk(pool, bs, last);
    if i + 2 < |bs| {
      assert BlockOk(pool, bs, i + 2);
    }
    if i + 3 < |bs| {
      assert bs[i + 2].End() <= bs[last].start;
    }
  }

  /** A pool with room for one header's worth of data: once handed out, that
      block can be neither freed nor resized. */
  lemma RangeTestRefuses(bs: seq<Block>)
    requires bs == [Block(0, 2 * HDR, false), Block(2 * HDR, HDR, false)]
    ensures Taken([Block(0, 2 * HDR, true), Block(2 * HDR, HDR, false)], 0, 2 * HDR) == bs
    ensures Handed(bs, 0, HDR) && !RangeTest(HDR, 3 * HDR)
  {
  }

  /** What has been freed is no longer handed out: freeing it again is refused. */
  lemma FreedOnce(pool: seq<Cell>, bs: seq<Block>, i: nat, mem: int, k: nat)
    requires Tiled(pool, bs) && Handed(bs, i, mem)
    ensures !Handed(Freed(bs, i), k, mem)
  {
    hide Aligned, Freed, Coalesced;
    assert BlockOk(pool, bs, i);
    FreedElement(bs, i, k);
    if k < FreedIndex(bs, i) {
      assert BlockOk(pool, bs, k);
    } else if FreedIndex(bs, i) < k < |Freed(bs, i)| {
      assert BlockOk(pool, bs, k - FreedIndex(bs, i) - 1 + FreedAfter(bs, i));
    }
  }

  lemma FreedElement(bs: seq<Block>, i: nat, k: nat)
    requires i + 1 < |bs|
    ensures |Freed(bs, i)| == FreedIndex(bs, i) + 1 + |bs| - FreedAfter(bs, i)
    ensures k < FreedIndex(bs, i) ==> Freed(bs, i)[k] == bs[k]
    ensures k == FreedIndex(bs, i) ==> Freed(bs, i)[k].free
    ensures FreedIndex(bs, i) < k < |Freed(bs, i)| ==> Freed(bs, i)[k] == bs[k - FreedIndex(bs, i) - 1 + FreedAfter(bs, i)]
  {
    hide Freed;
    FreedShape(bs, i);
  }

  lemma CountsNext(bs: seq<Block>, k: nat)
    requires k < |bs|
    ensures AllocCount(bs[..k + 1]) == AllocCount(bs[..k]) + if bs[k].free then 0 else 1
    ensures AllocBytes(bs[..k + 1]) == AllocBytes(bs[..k]) + if bs[k].free then 0 else bs[k].size
  {
    assert bs[..k + 1] == bs[..k] + [bs[k]];
    CountsAppend(bs[..k], [bs[k]]);
    CountsOne(bs[k]);
  }

  lemma FreedKeeps(pool: seq<Cell>, bs: seq<Block>, i: nat, pool': seq<Cell>)
    requires Tiled(pool, bs) && i + 1 < |bs| && !bs[i].free && |pool'| == |pool|
    requires forall a | 0 <= a < |pool| && !FreedCell(bs, i, a) :: pool'[a] == pool[a]
    ensures OthersKept(bs, pool, Freed(bs, i), pool', i)
    ensures DataKept(bs[i], pool, pool')
  {
    hide Aligned, Freed;
    forall k | 0 <= k < |bs| && !bs[k].free
      ensures k != i ==> bs[k] in Freed(bs, i)
      ensures DataKept(bs[k], pool, pool')
    {
      if k != i {
        FreedHasOther(bs, i, k);
      }
      FreedKeepsData(pool, bs, i, k, pool');
    }
  }

  lemma FreedHasOther(bs: seq<Block>, i: nat, k: nat)
    requires i + 1 < |bs| && k < |bs| && k != i && !bs[k].free
    ensures bs[k] in Freed(bs, i)
    ensures var k' := if k < i then k else k - |bs| + |Freed(bs, i)|;
            && 0 <= k' < |Freed(bs, i)| && Freed(bs, i)[k'] == bs[k]
            && (k + 1 < |bs| ==> k' + 1 < |Freed(bs, i)|)
  {
    hide Freed;
    FreedShape(bs, i);
    var k' := if k < i then k else k - |bs| + |Freed(bs, i)|;
    assert Freed(bs, i)[k'] == bs[k];
  }

  lemma FreedKeepsData(pool: seq<Cell>, bs: seq<Block>, i: nat, k: nat, pool': seq<Cell>)
    requires Tiled(pool, bs) && i + 1 < |bs| && k < |bs| && |pool'| == |pool|
    requires forall a | 0 <= a < |pool| && !FreedCell(bs, i, a) :: pool'[a] == pool[a]
    ensures DataKept(bs[k], pool, pool')
  {
    hide Aligned;
    assert BlockOk(pool, bs, i) && BlockOk(pool, bs, i + 1) && BlockOk(pool, bs, k);
    if i + 2 < |bs| {
      assert BlockOk(pool, bs, i + 2);
    }
  }

  /** The addresses HeapBlockAlloc() writes: the header of the block, that of
      the next block, and the new one if the block is split. */
  ghost predicate HeaderCell(bs: seq<Block>, i: nat, request: nat, a: nat)
    requires i < |bs|
  {
    var b := bs[i];
    || a == b.start
    || a == b.End()
    || (b.size > request + HDR && b.start + request <= a < b.start + request + HDR)
  }

  /** What a split writes: the block cut to the request, and a free block for
      the rest, linked between it and the next. */
  lemma SplitTiled(pool: seq<Cell>, bs: seq<Block>, i: nat, request: nat, pool': seq<Cell>)
    requires Tiled(pool, bs) && i + 1 < |bs| && bs[i].free && |pool'| == |pool|
    requires HDR <= request && request + HDR < bs[i].size && Aligned(request)
    requires BlockOk(pool, bs, i) && BlockOk(pool, bs, i + 1)
    requires forall a | 0 <= a < |pool| && !HeaderCell(bs, i, request, a) :: pool'[a] == pool[a]
    requires var b := bs[i];
             var bs' := Taken(bs, i, request);
             && pool'[b.start] == Head(HeaderOf(bs', i))
             && pool'[b.start + request] == Head(HeaderOf(bs', i + 1))
             && pool'[b.End()] == Head(HeaderOf(bs', i + 2))
             && (forall a | b.start + request < a < b.start + request + HDR :: pool'[a].Inside?)
    ensures Tiled(pool', Taken(bs, i, request))
  {
    SplitBlocks(pool, bs, i, request, pool');
    var put := SplitSpan(pool, bs, i, request);
    hide BlockOk, Aligned, SameSpan, Taken, Replaced, Ordered, HeaderOf;
    Splice(pool, bs, i, 1, put, pool');
  }

  lemma SplitSpan(pool: seq<Cell>, bs: seq<Block>, i: nat, request: nat) returns (put: seq<Block>)
    requires i + 1 < |bs| && HDR <= request && request + HDR < bs[i].size
    requires BlockOk(pool, bs, i) && BlockOk(pool, bs, i + 1)
    ensures |put| == 2 && SameSpan(bs, i, 1, put) && Taken(bs, i, request) == Replaced(bs, i, 1, put)
    ensures bs[i].End() == bs[i + 1].start < |pool|
  {
    var b := bs[i];
    put := [Block(b.start, request, false), Block(b.start + request, b.size - request, true)];
    hide Aligned;
  }

  /** The two blocks that splitting makes. */
  lemma SplitBlocks(pool: seq<Cell>, bs: seq<Block>, i: nat, request: nat, pool': seq<Cell>)
    requires Tiled(pool, bs) && i + 1 < |bs| && bs[i].free && |pool'| == |pool|
    requires HDR <= request && request + HDR < bs[i].size && Aligned(request)
    requires BlockOk(pool, bs, i) && BlockOk(pool, bs, i + 1)
    requires forall a | 0 <= a < |pool| && !HeaderCell(bs, i, request, a) :: pool'[a] == pool[a]
    requires var b := bs[i];
             var bs' := Taken(bs, i, request);
             && pool'[b.start] == Head(HeaderOf(bs', i))
             && pool'[b.start + request] == Head(HeaderOf(bs', i + 1))
             && (forall a | b.start + request < a < b.start + request + HDR :: pool'[a].Inside?)
    ensures BlockOk(pool', Taken(bs, i, request), i) && BlockOk(pool', Taken(bs, i, request), i + 1)
  {
    AlignedSums(bs[i].size, request);
    hide Aligned, Tiled;
  }

  /** What taking a whole block writes: its sentinel. */
  lemma WholeTiled(pool: seq<Cell>, bs: seq<Block>, i: nat, request: nat, pool': seq<Cell>)
    requires Tiled(pool, bs) && i + 1 < |bs| && bs[i].free && |pool'| == |pool|
    requires bs[i].size <= request + HDR
    requires BlockOk(pool, bs, i) && BlockOk(pool, bs, i + 1)
    requires forall a | 0 <= a < |pool| && a != bs[i].start :: pool'[a] == pool[a]
    requires pool'[bs[i].start] == Head(HeaderOf(Taken(bs, i, request), i))
    ensures Tiled(pool', Taken(bs, i, request))
  {
    hide Aligned;
    var b := bs[i];
    var bs' := Taken(bs, i, request);
    assert BlockOk(pool', bs', i);
    assert HeaderOf(bs', i + 1) == HeaderOf(bs, i + 1);
    Splice(pool, bs, i, 1, [Block(b.start, b.size, false)], pool');
  }

  lemma TakenCounts(bs: seq<Block>, i: nat, request: nat)
    requires i < |bs| && bs[i].free
    ensures AllocCount(Taken(bs, i, request)) == AllocCount(bs) + 1
    ensures AllocBytes(Taken(bs, i, request)) == AllocBytes(bs) + Taken(bs, i, request)[i].size
  {
    hide AllocCount, AllocBytes;
    var b := bs[i];
    var first := Taken(bs, i, request)[i];
    assert bs[i..i + 1] == [b];
    CountsOne(b);
    CountsOne(first);
    if b.size > request + HDR {
      var rest := Block(b.start + request, b.size - request, true);
      CountsOne(rest);
      CountsTwo(first, rest);
      CountsReplaced(bs, i, 1, [first, rest]);
    } else {
      CountsReplaced(bs, i, 1, [first]);
    }
  }
}
