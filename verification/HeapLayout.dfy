/** The memory pool of util/heap.c: what lies at each address, and how a list
    of blocks tiles it. */
module HeapLayout {

  /** REDHEAP_ALIGN_SIZE and REDHEAP_HDR_SIZE: a header is a whole number of
      aligned units, as the rounding in its definition makes it. */
  type Alignment = n: nat | 1 <= n <= 0x100 witness 1
  const ALIGN: Alignment
  type HeaderSize = n: nat | SENTINEL_SIZE <= n <= 0x1_0000 && n % ALIGN == 0 witness SmallHeader()
  const HDR: HeaderSize

  /** The sentinel is the first field of a header. */
  const SENTINEL_SIZE: nat := 4

  function SmallHeader(): (n: nat)
    ensures SENTINEL_SIZE <= n <= 0x1_0000 && n % ALIGN == 0
  {
    MultipleAligned(SENTINEL_SIZE);
    SENTINEL_SIZE * ALIGN
  }

  predicate Aligned(n: nat) {
    n % ALIGN == 0
  }

  lemma AlignedSums(a: nat, b: nat)
    requires Aligned(a) && Aligned(b)
    ensures Aligned(a + b)
    ensures a >= b ==> Aligned(a - b)
  {
    var x, y := a / ALIGN, b / ALIGN;
    assert a == x * ALIGN && b == y * ALIGN;
    MultipleAligned(x + y);
    assert (x + y) * ALIGN == a + b;
    if a >= b {
      assert x >= y;
      MultipleAligned(x - y);
      assert (x - y) * ALIGN == a - b;
    }
  }

  lemma {:induction false} MultipleAligned(k: nat)
    ensures Aligned(k * ALIGN)
  {
    if k > 0 {
      MultipleAligned(k - 1);
      assert k * ALIGN == (k - 1) * ALIGN + ALIGN;
      assert ((k - 1) * ALIGN + ALIGN) % ALIGN == ((k - 1) * ALIGN) % ALIGN;
    }
  }

  const UINT32_LIMIT: nat := 0x1_0000_0000

  datatype Address = Null | At(at: nat)

  /** REDHEAP_SENTINEL_FREE, REDHEAP_SENTINEL_ALLOC, and the complement that
      marks a header merged away. */
  datatype Sentinel = Free | Alloc | Dead

  datatype Header = Header(sentinel: Sentinel, size: nat, next: Address, prev: Address)

  /** One address of the pool: a byte of data, the first byte of a header, or
      another byte of one.  A header thus overwrites HDR addresses, and data
      written over a header destroys it. */
  datatype Cell = Data(byte: bv8) | Head(header: Header) | Inside(byte: bv8) {
    /** The byte that memory holds at this address. */
    function Byte(): bv8 {
      match this
      case Head(header) => SentinelBytes(header.sentinel)[0]
      case Data(byte) => byte
      case Inside(byte) => byte
    }
  }

  /** A sentinel in memory: REDHEAP_SENTINEL_FREE is 0xFBFCFDFE. */
  function SentinelBytes(sentinel: Sentinel): (bytes: seq<bv8>)
    ensures |bytes| == SENTINEL_SIZE
  {
    match sentinel
    case Free => [0xFE, 0xFD, 0xFC, 0xFB]
    case Alloc => [0xFF, 0xFD, 0xFC, 0xFB]
    case Dead => [0x01, 0x02, 0x03, 0x04]
  }

  /** What is no header reads like the sentinel of a block in use. */
  predicate Spells(pool: seq<Cell>, a: int) {
    && 0 <= a && a + SENTINEL_SIZE <= |pool| && !pool[a].Head?
    && [pool[a].Byte(), pool[a + 1].Byte(), pool[a + 2].Byte(), pool[a + 3].Byte()] == SentinelBytes(Alloc)
  }

  predicate Live(cell: Cell) {
    cell.Head? && cell.header.sentinel != Dead
  }

  datatype Block = Block(start: nat, size: nat, free: bool) {
    function End(): nat {
      start + size
    }
  }

  /** The header of block `i`. */
  ghost function HeaderOf(bs: seq<Block>, i: nat): Header
    requires i < |bs|
  {
    Header(
      if bs[i].free then Free else Alloc,
      bs[i].size,
      if i + 1 < |bs| then At(bs[i].End()) else Null,
      if i > 0 then At(bs[i - 1].start) else Null)
  }

  /** Block `i` is where it should be, its header says so, and no other live
      header lies inside it.  The last block is the terminating header. */
  ghost predicate BlockOk(pool: seq<Cell>, bs: seq<Block>, i: nat)
    requires i < |bs|
  {
    var b := bs[i];
    && HDR <= b.size && Aligned(b.size)
    && (i == 0 ==> b.start == 0)
    && b.End() == (if i + 1 < |bs| then bs[i + 1].start else |pool|)
    && (i + 1 == |bs| ==> !b.free && b.size == HDR)
    && b.End() <= |pool|
    && pool[b.start] == Head(HeaderOf(bs, i))
    && (forall a | b.start < a < b.End() :: !Live(pool[a]))
  }

  ghost predicate Ordered(bs: seq<Block>) {
    forall i, j | 0 <= i < j < |bs| :: bs[i].End() <= bs[j].start
  }

  /** The blocks tile the pool, and the pool holds their headers. */
  ghost predicate Tiled(pool: seq<Cell>, bs: seq<Block>) {
    && |bs| >= 2
    && Ordered(bs)
    && forall i {:trigger BlockOk(pool, bs, i)} | 0 <= i < |bs| :: BlockOk(pool, bs, i)
  }

  /** No two free blocks lie side by side. */
  ghost predicate Coalesced(bs: seq<Block>) {
    forall i | 0 < i < |bs| :: bs[i - 1].free ==> !bs[i].free
  }

  ghost function AllocCount(bs: seq<Block>): nat {
    if bs == [] then 0 else (if bs[0].free then 0 else 1) + AllocCount(bs[1..])
  }

  ghost function AllocBytes(bs: seq<Block>): nat {
    if bs == [] then 0 else (if bs[0].free then 0 else bs[0].size) + AllocBytes(bs[1..])
  }

  lemma {:induction false} CountsAppend(a: seq<Block>, b: seq<Block>)
    ensures AllocCount(a + b) == AllocCount(a) + AllocCount(b)
    ensures AllocBytes(a + b) == AllocBytes(a) + AllocBytes(b)
  {
    if a == [] {
      assert a + b == b;
    } else {
      assert (a + b)[1..] == a[1..] + b;
      CountsAppend(a[1..], b);
    }
  }

  lemma CountsOne(b: Block)
    ensures AllocCount([b]) == if b.free then 0 else 1
    ensures AllocBytes([b]) == if b.free then 0 else b.size
  {
    assert [b][1..] == [];
  }

  lemma CountsTwo(b: Block, c: Block)
    ensures AllocCount([b, c]) == AllocCount([b]) + AllocCount([c])
    ensures AllocBytes([b, c]) == AllocBytes([b]) + AllocBytes([c])
  {
    CountsAppend([b], [c]);
    assert [b, c] == [b] + [c];
  }

  /** `bs` with `count` blocks from `i` on replaced. */
  ghost function Replaced(bs: seq<Block>, i: nat, count: nat, put: seq<Block>): seq<Block>
    requires i + count <= |bs|
  {
    bs[..i] + put + bs[i + count..]
  }

  lemma CountsReplaced(bs: seq<Block>, i: nat, count: nat, put: seq<Block>)
    requires i + count <= |bs|
    ensures AllocCount(Replaced(bs, i, count, put)) == AllocCount(bs) - AllocCount(bs[i..i + count]) + AllocCount(put)
    ensures AllocBytes(Replaced(bs, i, count, put)) == AllocBytes(bs) - AllocBytes(bs[i..i + count]) + AllocBytes(put)
  {
    CountsAppend(bs[..i], bs[i..]);
    CountsAppend(bs[i..i + count], bs[i + count..]);
    CountsAppend(bs[..i] + put, bs[i + count..]);
    CountsAppend(bs[..i], put);
    assert bs == bs[..i] + bs[i..];
    assert bs[i..] == bs[i..i + count] + bs[i + count..];
  }

  /** The blocks after HeapBlockAlloc() takes free block `i` for a request:
      split if more than a header would be left over. */
  ghost function Taken(bs: seq<Block>, i: nat, request: nat): seq<Block>
    requires i < |bs|
  {
    var b := bs[i];
    if b.size > request + HDR then
      Replaced(bs, i, 1, [Block(b.start, request, false), Block(b.start + request, b.size - request, true)])
    else
      Replaced(bs, i, 1, [Block(b.start, b.size, false)])
  }

  /** No more than a header's worth is given beyond the request, and what is kept
      back has room for more than a header. */
  lemma TakenFits(bs: seq<Block>, i: nat, request: nat)
    requires i < |bs| && request <= bs[i].size
    ensures var now := Taken(bs, i, request);
            && i < |now| && !now[i].free && now[i].start == bs[i].start
            && request <= now[i].size <= request + HDR
            && (|now| == |bs| ==> now == bs[i := now[i]] && now[i].size == bs[i].size)
            && (|now| != |bs| ==>
                  && |now| == |bs| + 1 && now[i].size == request
                  && now[i + 1].free && now[i + 1].size > HDR && now[i + 1].size == bs[i].size - request
                  && now[..i] == bs[..i] && now[i + 2..] == bs[i + 1..])
  {
  }

  /** Block `i` marked as free. */
  ghost function Marked(bs: seq<Block>, i: nat): seq<Block>
    requires i < |bs|
  {
    Replaced(bs, i, 1, [bs[i].(free := true)])
  }

  /** Block `i` merged with the one after it. */
  ghost function Merged(bs: seq<Block>, i: nat): seq<Block>
    requires i + 1 < |bs|
  {
    Replaced(bs, i, 2, [Block(bs[i].start, bs[i].size + bs[i + 1].size, true)])
  }

  /** Free block `i` merged with the next one, if that is free. */
  ghost function MergedRight(bs: seq<Block>, i: nat): (merged: seq<Block>)
    requires i + 1 < |bs|
    ensures i < |merged| && merged[..i] == bs[..i]
  {
    if bs[i + 1].free then Merged(bs, i) else bs
  }

  /** Free block `i` merged into the previous one, if that is free. */
  ghost function MergedLeft(bs: seq<Block>, i: nat): seq<Block>
    requires i < |bs|
  {
    if i > 0 && bs[i - 1].free then Merged(bs, i - 1) else bs
  }

  /** The blocks after HeapBlockFree() frees block `i`: merged with whichever
      neighbours are free. */
  ghost function Freed(bs: seq<Block>, i: nat): seq<Block>
    requires i + 1 < |bs|
  {
    MergedLeft(MergedRight(Marked(bs, i), i), i)
  }

  /** Where the block that contains the freed one starts. */
  ghost function FreedStart(bs: seq<Block>, i: nat): nat
    requires i < |bs|
  {
    if i > 0 && bs[i - 1].free then bs[i - 1].start else bs[i].start
  }

  /** How large the block is that freeing block `i` makes. */
  ghost function FreedSize(bs: seq<Block>, i: nat): nat
    requires i + 1 < |bs|
  {
    bs[i].size
    + (if bs[i + 1].free then bs[i + 1].size else 0)
    + (if i > 0 && bs[i - 1].free then bs[i - 1].size else 0)
  }

  /** Its position in the list. */
  ghost function FreedIndex(bs: seq<Block>, i: nat): (index: nat)
    requires i < |bs|
    ensures index <= i
  {
    if i > 0 && bs[i - 1].free then i - 1 else i
  }

  /** The first block after it. */
  ghost function FreedAfter(bs: seq<Block>, i: nat): (after: nat)
    requires i + 1 < |bs|
    ensures i < after <= |bs|
  {
    if bs[i + 1].free then i + 2 else i + 1
  }

  lemma FreedShape(bs: seq<Block>, i: nat)
    requires i + 1 < |bs|
    ensures Freed(bs, i)
            == bs[..FreedIndex(bs, i)] + [Block(FreedStart(bs, i), FreedSize(bs, i), true)] + bs[FreedAfter(bs, i)..]
  {
    RightShape(bs, i);
    hide Marked, MergedRight;
    LeftShape(MergedRight(Marked(bs, i), i), i, bs[..i], bs[FreedAfter(bs, i)..]);
  }

  /** A block and what it is merged with on the right, between the others. */
  lemma RightShape(bs: seq<Block>, i: nat)
    requires i + 1 < |bs|
    ensures MergedRight(Marked(bs, i), i) ==
              bs[..i] + [Block(bs[i].start, bs[i].size + (if bs[i + 1].free then bs[i + 1].size else 0), true)]
              + bs[FreedAfter(bs, i)..]
  {
    var marked := Marked(bs, i);
    assert marked[..i] == bs[..i];
    assert marked[i + 1] == bs[i + 1];
    assert marked[i + 1..] == bs[i + 1..];
    assert marked[i + 2..] == bs[i + 2..];
  }

  lemma LeftShape(bs: seq<Block>, i: nat, left: seq<Block>, right: seq<Block>)
    requires i < |bs| && i == |left| && bs == left + [bs[i]] + right
    ensures MergedLeft(bs, i) ==
              if i > 0 && left[i - 1].free then
                left[..i - 1] + [Block(left[i - 1].start, left[i - 1].size + bs[i].size, true)] + right
              else
                bs
  {
    assert i > 0 ==> bs[i - 1] == left[i - 1] && bs[..i - 1] == left[..i - 1];
    assert bs[i + 1..] == right;
  }

  lemma FreedCoalesced(bs: seq<Block>, i: nat)
    requires i + 1 < |bs| && Coalesced(bs)
    ensures Coalesced(Freed(bs, i))
  {
    hide Freed;
    FreedShape(bs, i);
    var index, after := FreedIndex(bs, i), FreedAfter(bs, i);
    var bs' := Freed(bs, i);
    assert index > 0 ==> !bs[index - 1].free;
    assert after < |bs| ==> !bs[after].free;
    assert forall k | 0 <= k < index :: bs'[k] == bs[k];
    assert forall k | index < k < |bs'| :: bs'[k] == bs[k - index - 1 + after];
  }

  lemma TakenCoalesced(bs: seq<Block>, i: nat, request: nat)
    requires i < |bs| && Coalesced(bs) && bs[i].free
    ensures Coalesced(Taken(bs, i, request))
  {
  }

  /** The span of `put` is that of the blocks it replaces. */
  ghost predicate SameSpan(bs: seq<Block>, i: nat, count: nat, put: seq<Block>) {
    && 0 < count && i + count < |bs|
    && put != [] && Ordered(put)
    && put[0].start == bs[i].start
    && put[|put| - 1].End() == bs[i + count - 1].End()
    && (forall k | 0 <= k < |put| :: bs[i].start <= put[k].start && put[k].End() <= bs[i + count - 1].End())
  }

  /** Blocks may be replaced by others over the same span, if the header after
      them is made to point back to the last. */
  lemma Splice(pool: seq<Cell>, bs: seq<Block>, i: nat, count: nat, put: seq<Block>, pool': seq<Cell>)
    requires Tiled(pool, bs) && SameSpan(bs, i, count, put) && |pool'| == |pool|
    requires var bs' := Replaced(bs, i, count, put);
             var after := bs[i + count].start;
             && (forall a | 0 <= a < |pool| && !(bs[i].start <= a <= after) :: pool'[a] == pool[a])
             && (forall k | i <= k < i + |put| :: BlockOk(pool', bs', k))
             && after < |pool'| && pool'[after] == Head(HeaderOf(bs', i + |put|))
    ensures Tiled(pool', Replaced(bs, i, count, put))
  {
    var bs' := Replaced(bs, i, count, put);
    assert BlockOk(pool, bs, i + count - 1);
    SpliceOrdered(bs, i, count, put);
    forall k | 0 <= k < |bs'|
      ensures BlockOk(pool', bs', k)
    {
      if k < i {
        SpliceBefore(pool, bs, i, count, put, pool', k);
      } else if k >= i + |put| {
        SpliceAfter(pool, bs, i, count, put, pool', k);
      }
    }
  }

  lemma SpliceOrdered(bs: seq<Block>, i: nat, count: nat, put: seq<Block>)
    requires Ordered(bs) && SameSpan(bs, i, count, put)
    requires bs[i + count - 1].End() <= bs[i + count].start
    ensures Ordered(Replaced(bs, i, count, put))
  {
    var bs' := Replaced(bs, i, count, put);
    forall j, k | 0 <= j < k < |bs'|
      ensures bs'[j].End() <= bs'[k].start
    {
      if j < i && i <= k < i + |put| {
        assert bs[j].End() <= bs[i].start;
      } else if i <= j < i + |put| <= k {
        assert bs[i + count - 1].End() <= bs[k - |put| + count].start;
      }
    }
  }

  lemma SpliceBefore(pool: seq<Cell>, bs: seq<Block>, i: nat, count: nat, put: seq<Block>, pool': seq<Cell>, k: nat)
    requires Tiled(pool, bs) && SameSpan(bs, i, count, put) && |pool'| == |pool| && k < i
    requires forall a | 0 <= a < |pool| && a < bs[i].start :: pool'[a] == pool[a]
    ensures BlockOk(pool', Replaced(bs, i, count, put), k)
  {
    var bs' := Replaced(bs, i, count, put);
    assert BlockOk(pool, bs, k);
    assert bs[k].End() <= bs[i].start;
    assert bs'[k] == bs[k];
    assert HeaderOf(bs', k) == HeaderOf(bs, k);
  }

  lemma SpliceAfter(pool: seq<Cell>, bs: seq<Block>, i: nat, count: nat, put: seq<Block>, pool': seq<Cell>, k: nat)
    requires Tiled(pool, bs) && SameSpan(bs, i, count, put) && |pool'| == |pool|
    requires i + |put| <= k < |Replaced(bs, i, count, put)|
    requires forall a | bs[i + count].start < a < |pool| :: pool'[a] == pool[a]
    requires bs[i + count].start < |pool'|
    requires pool'[bs[i + count].start] == Head(HeaderOf(Replaced(bs, i, count, put), i + |put|))
    ensures BlockOk(pool', Replaced(bs, i, count, put), k)
  {
    var bs' := Replaced(bs, i, count, put);
    var j := k - |put| + count;
    assert BlockOk(pool, bs, j);
    assert bs'[k] == bs[j];
    if k > i + |put| {
      assert BlockOk(pool, bs, i + count);
      assert bs[i + count].End() <= bs[j].start;
      assert HeaderOf(bs', k) == HeaderOf(bs, j);
    }
  }

  /** Block `i` is handed out, and `mem` is the address handed out for it. */
  ghost predicate Handed(bs: seq<Block>, i: nat, mem: int) {
    i + 1 < |bs| && !bs[i].free && mem == bs[i].start + HDR
  }

  /** The data of every block in use but block `except` is as it was, and the
      block is still there. */
  ghost predicate OthersKept(bs: seq<Block>, pool: seq<Cell>, bs': seq<Block>, pool': seq<Cell>, except: int) {
    && |pool'| == |pool|
    && forall k | 0 <= k < |bs| && !bs[k].free && k != except ::
         bs[k] in bs' && DataKept(bs[k], pool, pool')
  }

  ghost predicate DataKept(b: Block, pool: seq<Cell>, pool': seq<Cell>) {
    forall a | b.start + HDR <= a < b.End() && a < |pool| && a < |pool'| :: pool'[a] == pool[a]
  }

  lemma FreedAt(bs: seq<Block>, i: nat)
    requires i + 1 < |bs| && !bs[i].free
    ensures FreedIndex(bs, i) < |Freed(bs, i)|
    ensures Freed(bs, i)[FreedIndex(bs, i)] == Block(FreedStart(bs, i), FreedSize(bs, i), true)
  {
    FreedShape(bs, i);
  }

  /** The block that holds an address. */
  lemma {:induction false} BlockAt(pool: seq<Cell>, bs: seq<Block>, a: nat, from: nat) returns (i: nat)
    requires Tiled(pool, bs) && a < |pool| && from < |bs| && bs[from].start <= a
    ensures i < |bs| && bs[i].start <= a < bs[i].End()
    decreases |bs| - from
  {
    assert BlockOk(pool, bs, from);
    if a < bs[from].End() {
      i := from;
    } else {
      assert from + 1 < |bs|;
      i := BlockAt(pool, bs, a, from + 1);
    }
  }

  /** A live header is the header of a block: nothing else looks like one. */
  lemma LiveHeader(pool: seq<Cell>, bs: seq<Block>, a: nat) returns (i: nat)
    requires Tiled(pool, bs) && a < |pool| && Live(pool[a])
    ensures i < |bs| && bs[i].start == a
    ensures BlockOk(pool, bs, i)
  {
    assert BlockOk(pool, bs, 0);
    i := BlockAt(pool, bs, a, 0);
    assert BlockOk(pool, bs, i);
  }
}
