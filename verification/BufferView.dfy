/** What the block buffers of core/driver/buffer.c amount to: a map from blocks
    to contents, held partly in buffers and partly on disk. */
module BufferView {
  import opened Errors
  import opened Constants

  /** The first NODEHEADER_SIZE bytes of a block, and the others.  Writing out a
      metadata block stamps the first part, so only the second is lasting. */
  datatype Content = Content(header: seq<bv8>, data: seq<bv8>)

  /** Block size beyond the header; the header is NODEHEADER_SIZE bytes. */
  const DATA_SIZE: nat

  function Zeroed(): Content {
    Content(seq(NODEHEADER_SIZE, _ => 0), seq(DATA_SIZE, _ => 0))
  }

  datatype Place = Place(vol: nat, block: nat)

  type Disk = map<Place, Content>

  function OnDisk(disk: Disk, p: Place): Content {
    if p in disk then disk[p] else Zeroed()
  }

  /** The metadata type in a buffer's flags. */
  datatype Meta = FileData | Master | Imap | InodeNode | Dindir | Indir | DirectoryNode

  /** Some header makes the contents a valid node of a type. */
  ghost predicate CanStamp(nodeIsValid: (Content, Meta) -> bool, c: Content, meta: Meta) {
    exists header :: nodeIsValid(c.(header := header), meta)
  }

  /** Every metadata block can be stamped, as RedBufferFinalize() does. */
  ghost predicate Stampable(nodeIsValid: (Content, Meta) -> bool) {
    forall c, meta {:trigger CanStamp(nodeIsValid, c, meta)} | meta != FileData :: CanStamp(nodeIsValid, c, meta)
  }

  /** BUFFERHEAD; `valid` is false where ulBlock is BBLK_INVALID. */
  datatype BufferHead = BufferHead(valid: bool, place: Place, refs: nat, dirty: bool, meta: Meta) {
    predicate Holds(p: Place) {
      valid && place == p
    }
  }

  /** The first buffer at or after `i` that holds `p`, or the buffer count. */
  function Find(heads: seq<BufferHead>, p: Place, i: nat): (found: nat)
    requires i <= |heads|
    ensures i <= found <= |heads|
    ensures found < |heads| ==> heads[found].Holds(p)
    ensures forall k | i <= k < found :: !heads[k].Holds(p)
    decreases |heads| - i
  {
    if i == |heads| || heads[i].Holds(p) then i else Find(heads, p, i + 1)
  }

  /** At most one buffer holds a block. */
  ghost predicate Unique(heads: seq<BufferHead>) {
    forall i, j | 0 <= i < j < |heads| :: heads[i].valid && heads[j].valid ==> heads[i].place != heads[j].place
  }

  lemma FindIs(heads: seq<BufferHead>, p: Place, i: nat)
    requires Unique(heads) && i < |heads| && heads[i].Holds(p)
    ensures Find(heads, p, 0) == i
  {
  }

  lemma FindNone(heads: seq<BufferHead>, p: Place)
    requires forall k | 0 <= k < |heads| :: !heads[k].Holds(p)
    ensures Find(heads, p, 0) == |heads|
  {
  }

  /** What reading block `p` yields: its buffer if there is one, else the disk. */
  ghost function View(heads: seq<BufferHead>, buffers: seq<Content>, disk: Disk, p: Place): Content
    requires |heads| == |buffers|
  {
    var i := Find(heads, p, 0);
    if i < |heads| then buffers[i] else OnDisk(disk, p)
  }

  /** A buffer that is not dirty agrees with the disk, unless a write that
      bypassed the buffers failed there and left the disk undefined. */
  ghost predicate CleanAgree(heads: seq<BufferHead>, buffers: seq<Content>, disk: Disk, torn: set<Place>)
    requires |heads| == |buffers|
  {
    forall i | 0 <= i < |heads| ::
      heads[i].valid && !heads[i].dirty && heads[i].place !in torn ==> buffers[i] == OnDisk(disk, heads[i].place)
  }

  ghost function Used(heads: seq<BufferHead>): nat {
    if heads == [] then 0 else (if heads[0].refs > 0 then 1 else 0) + Used(heads[1..])
  }

  lemma {:induction false} UsedUpdate(heads: seq<BufferHead>, i: nat, h: BufferHead)
    requires i < |heads|
    ensures Used(heads[i := h]) == Used(heads) - (if heads[i].refs > 0 then 1 else 0) + (if h.refs > 0 then 1 else 0)
  {
    if i > 0 {
      assert heads[i := h][1..] == heads[1..][i - 1 := h];
      UsedUpdate(heads[1..], i - 1, h);
    } else {
      assert heads[i := h][1..] == heads[1..];
    }
  }

  lemma {:induction false} SomeUnused(heads: seq<BufferHead>)
    ensures Used(heads) <= |heads|
    ensures Used(heads) < |heads| ==> exists i :: 0 <= i < |heads| && heads[i].refs == 0
    ensures (exists i :: 0 <= i < |heads| && heads[i].refs == 0) ==> Used(heads) < |heads|
  {
    if heads != [] {
      SomeUnused(heads[1..]);
      if Used(heads) < |heads| && heads[0].refs > 0 {
        var i :| 0 <= i < |heads[1..]| && heads[1..][i].refs == 0;
        assert heads[i + 1].refs == 0;
      }
      if i :| 0 <= i < |heads| && heads[i].refs == 0 {
        if i > 0 {
          assert heads[1..][i - 1].refs == 0;
        }
      }
    }
  }

  /** Two contents a reader cannot tell apart: equal, but for the header if the
      block is metadata. */
  ghost predicate Same(meta: bool, a: Content, b: Content) {
    a.data == b.data && (!meta ==> a == b)
  }

  /** Heads, buffers, disk, and the blocks a failed bypassing write left torn. */
  datatype Snapshot = Snapshot(heads: seq<BufferHead>, buffers: seq<Content>, disk: Disk, torn: set<Place>)

  ghost predicate Consistent(s: Snapshot) {
    && |s.heads| == |s.buffers|
    && Unique(s.heads)
    && CleanAgree(s.heads, s.buffers, s.disk, s.torn)
  }

  ghost function ViewOf(s: Snapshot, p: Place): Content
    requires |s.heads| == |s.buffers|
  {
    View(s.heads, s.buffers, s.disk, p)
  }

  ghost predicate MetaAt(s: Snapshot, p: Place) {
    var i := Find(s.heads, p, 0);
    i < |s.heads| && s.heads[i].meta != FileData
  }

  /** No block but those in `except` reads differently in `t` than in `s`. */
  ghost predicate Transparent(s: Snapshot, t: Snapshot, except: set<Place>)
    requires |s.heads| == |s.buffers| && |t.heads| == |t.buffers|
  {
    forall p {:trigger ViewOf(t, p)} | p !in s.torn && p !in except :: Same(MetaAt(s, p), ViewOf(s, p), ViewOf(t, p))
  }

  /** What BufferWrite() does to buffer `b`: at most its metadata header and
      its own block on disk change, and the two agree if it succeeds. */
  ghost predicate WrittenOut(s: Snapshot, t: Snapshot, b: nat, success: bool) {
    && b < |s.heads| == |s.buffers| && s.heads[b].valid
    && t.heads == s.heads && |t.buffers| == |s.buffers|
    && (forall k | 0 <= k < |s.heads| && k != b :: t.buffers[k] == s.buffers[k])
    && Same(s.heads[b].meta != FileData, s.buffers[b], t.buffers[b])
    && (forall p | p != s.heads[b].place :: OnDisk(t.disk, p) == OnDisk(s.disk, p))
    && (success ==> OnDisk(t.disk, s.heads[b].place) == t.buffers[b])
    && t.torn == if success then s.torn - {s.heads[b].place} else s.torn
  }

  lemma WritingOutIsTransparent(s: Snapshot, t: Snapshot, b: nat, success: bool)
    requires Consistent(s) && WrittenOut(s, t, b, success)
    requires s.heads[b].dirty
    ensures Consistent(t) && Transparent(s, t, {})
  {
    forall p | p !in s.torn
      ensures Same(MetaAt(s, p), ViewOf(s, p), ViewOf(t, p))
    {
      FindIs(s.heads, s.heads[b].place, b);
    }
  }

  /** Giving buffer `b`, which the disk agrees with, to block `p` or to none. */
  lemma Repurposing(s: Snapshot, b: nat, p: Place, h: BufferHead, c: Content)
    requires Consistent(s) && b < |s.heads|
    requires s.heads[b].valid && s.heads[b].place !in s.torn ==> s.buffers[b] == OnDisk(s.disk, s.heads[b].place)
    requires forall k | 0 <= k < |s.heads| && k != b :: !s.heads[k].Holds(p)
    requires h.valid ==> h.place == p && (!h.dirty && p !in s.torn ==> c == OnDisk(s.disk, p))
    ensures var t := s.(heads := s.heads[b := h], buffers := s.buffers[b := c]);
            && Consistent(t)
            && (forall q {:trigger ViewOf(t, q)} | q !in s.torn && q != p :: ViewOf(t, q) == ViewOf(s, q))
            && (h.valid ==> ViewOf(t, p) == c)
  {
    var t := s.(heads := s.heads[b := h], buffers := s.buffers[b := c]);
    if h.valid {
      FindIs(t.heads, p, b);
    }
    forall q | q !in s.torn && q != p
      ensures ViewOf(t, q) == ViewOf(s, q)
    {
      var i := Find(s.heads, q, 0);
      if i == b {
        FindNone(t.heads, q);
      } else if i < |s.heads| {
        FindIs(t.heads, q, i);
      } else {
        FindNone(t.heads, q);
      }
    }
  }

  lemma SameIsTransparent(s: Snapshot)
    requires |s.heads| == |s.buffers|
    ensures Transparent(s, s, {})
  {
  }

  function Referenced(h: BufferHead, dirty: bool, meta: Meta): BufferHead {
    h.(refs := h.refs + 1, dirty := h.dirty || dirty, meta := meta)
  }

  /** What RedBufferGet() promises: buffer `b` holds block `p`, referenced once
      more, with what the block reads as, or zeros if the block is new; and no
      other block reads differently. */
  ghost predicate Got(s: Snapshot, t: Snapshot, b: nat, p: Place, dirty: bool, isNew: bool, meta: Meta)
    requires |s.heads| == |s.buffers| && |t.heads| == |t.buffers|
  {
    var was := Find(s.heads, p, 0);
    && b < |t.heads| == |s.heads|
    && (was < |s.heads| ==> b == was && !isNew && s.heads[b].meta == meta)
    && (was == |s.heads| ==> s.heads[b].refs == 0)
    && t.heads == s.heads[b := if was < |s.heads| then Referenced(s.heads[b], dirty, meta) else BufferHead(true, p, 1, dirty, meta)]
    && t.buffers[b] == (if isNew then Zeroed() else ViewOf(s, p))
    && Transparent(s, t, {p})
  }

  lemma GotHolds(s: Snapshot, t: Snapshot, b: nat, p: Place, dirty: bool, isNew: bool, meta: Meta)
    requires |s.heads| == |s.buffers| && |t.heads| == |t.buffers| && Got(s, t, b, p, dirty, isNew, meta)
    ensures b < |t.heads| && t.heads[b].Holds(p) && t.heads[b].refs > 0
  {
  }

  /** A head that still names its block: every block is found where it was. */
  lemma Relabelling(s: Snapshot, b: nat, h: BufferHead)
    requires Consistent(s) && b < |s.heads|
    requires h.valid == s.heads[b].valid && h.place == s.heads[b].place
    requires h.valid && !h.dirty && h.place !in s.torn ==> s.buffers[b] == OnDisk(s.disk, h.place)
    ensures var t := s.(heads := s.heads[b := h]);
            && Consistent(t)
            && (forall q {:trigger ViewOf(t, q)} :: ViewOf(t, q) == ViewOf(s, q))
    ensures Used(s.heads[b := h]) == Used(s.heads) - (if s.heads[b].refs > 0 then 1 else 0) + (if h.refs > 0 then 1 else 0)
  {
    var t := s.(heads := s.heads[b := h]);
    forall q
      ensures ViewOf(t, q) == ViewOf(s, q)
    {
      var i := Find(s.heads, q, 0);
      if i < |s.heads| {
        FindIs(t.heads, q, i);
      } else {
        FindNone(t.heads, q);
      }
    }
    UsedUpdate(s.heads, b, h);
  }

  /** Putting other contents, under another name, into a buffer the disk agrees
      with. */
  lemma LoadedIs(s: Snapshot, t: Snapshot, b: nat, p: Place)
    requires Consistent(s) && b < |s.heads| == |t.heads| == |t.buffers|
    requires s.heads[b].valid && s.heads[b].place !in s.torn ==> s.buffers[b] == OnDisk(s.disk, s.heads[b].place)
    requires Find(s.heads, p, 0) == |s.heads|
    requires t == s.(heads := s.heads[b := t.heads[b]], buffers := s.buffers[b := t.buffers[b]])
    requires var h := t.heads[b]; h.valid ==> h.place == p && (!h.dirty && p !in s.torn ==> t.buffers[b] == OnDisk(s.disk, p))
    ensures Consistent(t)
    ensures forall q {:trigger ViewOf(t, q)} | q !in s.torn && q != p :: ViewOf(t, q) == ViewOf(s, q)
    ensures ViewOf(t, p) == if t.heads[b].valid then t.buffers[b] else ViewOf(s, p)
    ensures Used(t.heads) == Used(s.heads) - (if s.heads[b].refs > 0 then 1 else 0) + (if t.heads[b].refs > 0 then 1 else 0)
  {
    UsedUpdate(s.heads, b, t.heads[b]);
    Repurposing(s, b, p, t.heads[b], t.buffers[b]);
    if !t.heads[b].valid {
      FindNone(t.heads, p);
    }
  }

  /** Buffer `b`, the victim, given to block `p` or, if the read failed, to none. */
  lemma LoadedGets(s: Snapshot, t: Snapshot, b: nat, p: Place, dirty: bool, isNew: bool, meta: Meta, success: bool)
    requires Consistent(s) && b < |s.heads| == |t.heads| == |t.buffers| && s.heads[b].refs == 0
    requires s.heads[b].valid && s.heads[b].place !in s.torn ==> s.buffers[b] == OnDisk(s.disk, s.heads[b].place)
    requires Find(s.heads, p, 0) == |s.heads| && (isNew ==> dirty)
    requires t == s.(heads := s.heads[b := t.heads[b]], buffers := s.buffers[b := t.buffers[b]])
    requires t.heads[b] == if success then BufferHead(true, p, 1, dirty, meta) else s.heads[b].(valid := false)
    requires success ==> t.buffers[b] == if isNew then Zeroed() else OnDisk(s.disk, p)
    ensures Consistent(t) && Used(t.heads) == Used(s.heads) + (if success then 1 else 0)
    ensures if success then Got(s, t, b, p, dirty, isNew, meta) else Transparent(s, t, {})
  {
    hide Unique, CleanAgree, Used, Find;
    LoadedIs(s, t, b, p);
  }

  lemma Composed(s: Snapshot, t: Snapshot, u: Snapshot, except: set<Place>, more: set<Place>)
    requires |s.heads| == |s.buffers| && |t.heads| == |t.buffers| && |u.heads| == |u.buffers|
    requires Transparent(s, t, except) && Transparent(t, u, more) && t.torn <= s.torn
    requires forall p {:trigger MetaAt(t, p)} :: MetaAt(t, p) == MetaAt(s, p)
    ensures Transparent(s, u, except + more)
  {
    forall p | p !in s.torn && p !in except + more
      ensures Same(MetaAt(s, p), ViewOf(s, p), ViewOf(u, p))
    {
      assert Same(MetaAt(t, p), ViewOf(t, p), ViewOf(u, p));
      assert MetaAt(t, p) == MetaAt(s, p);
    }
  }

  /** Invalidating buffer `b`: its block reads as the disk does. */
  lemma Dropping(s: Snapshot, b: nat, h: BufferHead)
    requires Consistent(s) && b < |s.heads| && s.heads[b].valid && !h.valid
    ensures var t := s.(heads := s.heads[b := h]);
            && Consistent(t)
            && (forall q {:trigger ViewOf(t, q)} | q != s.heads[b].place :: ViewOf(t, q) == ViewOf(s, q))
            && ViewOf(t, s.heads[b].place) == OnDisk(s.disk, s.heads[b].place)
  {
    var t := s.(heads := s.heads[b := h]);
    forall q | q != s.heads[b].place
      ensures ViewOf(t, q) == ViewOf(s, q)
    {
      var i := Find(s.heads, q, 0);
      if i < |s.heads| {
        FindIs(t.heads, q, i);
      } else {
        FindNone(t.heads, q);
      }
    }
    FindIs(s.heads, s.heads[b].place, b);
    FindNone(t.heads, s.heads[b].place);
  }

  predicate InRange(p: Place, vol: nat, start: nat, count: nat) {
    p.vol == vol && start <= p.block < start + count
  }

  /** The heads before a flush of the range and after, or part way through it. */
  ghost predicate SameButClean(a: seq<BufferHead>, b: seq<BufferHead>, vol: nat, start: nat, count: nat) {
    |a| == |b| && forall i | 0 <= i < |a| :: b[i] == a[i] || (InRange(a[i].place, vol, start, count) && b[i] == a[i].(dirty := false))
  }

  lemma SameMeta(s: Snapshot, t: Snapshot, vol: nat, start: nat, count: nat)
    requires Consistent(s) && Consistent(t) && SameButClean(s.heads, t.heads, vol, start, count)
    ensures forall p {:trigger MetaAt(t, p)} :: MetaAt(t, p) == MetaAt(s, p)
  {
    forall p
      ensures MetaAt(t, p) == MetaAt(s, p)
    {
      var i := Find(s.heads, p, 0);
      if i < |s.heads| {
        FindIs(t.heads, p, i);
      } else {
        FindNone(t.heads, p);
      }
    }
  }

  ghost function Range(vol: nat, start: nat, count: nat): (places: set<Place>)
    ensures forall p :: p in places <==> InRange(p, vol, start, count)
  {
    if count == 0 then {} else Range(vol, start, count - 1) + {Place(vol, start + count - 1)}
  }

  /** The heads before a discard of the range and after, or part way through it. */
  ghost predicate SameButGone(a: seq<BufferHead>, b: seq<BufferHead>, vol: nat, start: nat, count: nat) {
    |a| == |b| && forall i | 0 <= i < |a| ::
      b[i] == a[i] || (a[i].valid && InRange(a[i].place, vol, start, count) && a[i].refs == 0 && b[i] == a[i].(valid := false))
  }

  /** Some buffer of the range is referenced. */
  ghost predicate SomeReferenced(heads: seq<BufferHead>, vol: nat, start: nat, count: nat) {
    exists i :: 0 <= i < |heads| && heads[i].valid && InRange(heads[i].place, vol, start, count) && heads[i].refs > 0
  }

  /** None of the first `n` buffers holds a block of the range. */
  ghost predicate NoneIn(heads: seq<BufferHead>, n: nat, vol: nat, start: nat, count: nat)
    requires n <= |heads|
  {
    forall i | 0 <= i < n && heads[i].valid :: !InRange(heads[i].place, vol, start, count)
  }

  /** A write to the range on disk alone, before its buffers are discarded. */
  lemma WritingPast(s: Snapshot, t: Snapshot, vol: nat, start: nat, count: nat)
    requires Consistent(s) && t.heads == s.heads && t.buffers == s.buffers
    requires t.torn == s.torn + Range(vol, start, count)
    requires forall q | !InRange(q, vol, start, count) :: OnDisk(t.disk, q) == OnDisk(s.disk, q)
    ensures Consistent(t)
    ensures forall q {:trigger ViewOf(t, q)} | !InRange(q, vol, start, count) :: ViewOf(t, q) == ViewOf(s, q)
  {
  }

  /** After the range's buffers are discarded it reads as it was written. */
  lemma Rewritten(s: Snapshot, vol: nat, start: nat, contents: seq<Content>, torn: set<Place>)
    requires Consistent(s) && NoneIn(s.heads, |s.heads|, vol, start, |contents|)
    requires s.torn == torn + Range(vol, start, |contents|)
    requires forall k | 0 <= k < |contents| :: OnDisk(s.disk, Place(vol, start + k)) == contents[k]
    ensures Consistent(s.(torn := torn - Range(vol, start, |contents|)))
    ensures forall k | 0 <= k < |contents| :: ViewOf(s, Place(vol, start + k)) == contents[k]
    ensures var t := s.(torn := torn - Range(vol, start, |contents|));
            forall p {:trigger ViewOf(s, p)} {:trigger ViewOf(t, p)} :: ViewOf(t, p) == ViewOf(s, p)
  {
    forall k | 0 <= k < |contents|
      ensures ViewOf(s, Place(vol, start + k)) == contents[k]
    {
      FindNone(s.heads, Place(vol, start + k));
    }
  }

  /** How writing out a buffer may end: only metadata has to be stamped first. */
  predicate WriteStatus(meta: Meta, status: Status) {
    status.Success? || status.error == EIO || (meta != FileData && status.error in {EINVAL, EFUBAR})
  }

  /** How RedBufferGet() may fail for a block that has no buffer, with victim `b`:
      it could not be written out, or the block could not be read into it. */
  ghost predicate Missed(s: Snapshot, t: Snapshot, b: nat, isNew: bool, status: Status) {
    && b < |s.heads|
    && ((s.heads[b].valid && s.heads[b].dirty && WriteStatus(s.heads[b].meta, status) && t.heads == s.heads)
        || (!isNew && status == Failure(EIO) && t.heads == s.heads[b := s.heads[b].(valid := false)]))
  }

  /** A dirty buffer of the range, whose writing out may end so. */
  ghost predicate FlushFails(heads: seq<BufferHead>, i: nat, vol: nat, start: nat, count: nat, status: Status) {
    i < |heads| && heads[i].valid && heads[i].dirty && InRange(heads[i].place, vol, start, count) && WriteStatus(heads[i].meta, status)
  }

  ghost predicate FlushMayFail(heads: seq<BufferHead>, vol: nat, start: nat, count: nat, status: Status) {
    exists i :: FlushFails(heads, i, vol, start, count, status)
  }

  /** None of the first `n` buffers is a dirty one of the range. */
  ghost predicate CleanIn(heads: seq<BufferHead>, n: nat, vol: nat, start: nat, count: nat)
    requires n <= |heads|
  {
    forall i | 0 <= i < n && heads[i].valid :: InRange(heads[i].place, vol, start, count) ==> !heads[i].dirty
  }

  /** What a flush of the range has to write out. */
  predicate ToFlush(h: BufferHead, vol: nat, start: nat, count: nat) {
    h.valid && h.dirty && InRange(h.place, vol, start, count)
  }

  /** What is accepted as read for a block of a type. */
  predicate Accepts(nodeIsValid: (Content, Meta) -> bool, content: Content, meta: Meta) {
    meta == FileData || nodeIsValid(content, meta)
  }

  /** A flush of the range has come to buffer `n`: those before it are clean, and
      what it wrote is accepted when read. */
  ghost predicate FlushedTo(a: seq<BufferHead>, now: seq<BufferHead>, n: nat, vol: nat, start: nat, count: nat,
                            disk: Disk, nodeIsValid: (Content, Meta) -> bool)
  {
    && SameButClean(a, now, vol, start, count) && n <= |a|
    && (forall i | n <= i < |a| :: now[i] == a[i])
    && CleanIn(now, n, vol, start, count)
    && (forall i | 0 <= i < n && ToFlush(a[i], vol, start, count) :: Accepts(nodeIsValid, OnDisk(disk, a[i].place), a[i].meta))
  }

  lemma FlushStarts(a: seq<BufferHead>, vol: nat, start: nat, count: nat, disk: Disk, nodeIsValid: (Content, Meta) -> bool)
    ensures FlushedTo(a, a, 0, vol, start, count, disk, nodeIsValid)
  {
  }

  lemma FlushedSame(a: seq<BufferHead>, now: seq<BufferHead>, n: nat, vol: nat, start: nat, count: nat, disk: Disk, nodeIsValid: (Content, Meta) -> bool)
    requires FlushedTo(a, now, n, vol, start, count, disk, nodeIsValid)
    ensures SameButClean(a, now, vol, start, count)
  {
  }

  lemma FlushedAt(a: seq<BufferHead>, now: seq<BufferHead>, n: nat, vol: nat, start: nat, count: nat, disk: Disk, nodeIsValid: (Content, Meta) -> bool)
    requires FlushedTo(a, now, n, vol, start, count, disk, nodeIsValid) && n < |a|
    ensures |now| == |a| && now[n] == a[n]
  {
  }

  lemma FlushSkips(a: seq<BufferHead>, now: seq<BufferHead>, n: nat, vol: nat, start: nat, count: nat, disk: Disk, nodeIsValid: (Content, Meta) -> bool)
    requires FlushedTo(a, now, n, vol, start, count, disk, nodeIsValid) && n < |a| && !ToFlush(a[n], vol, start, count)
    ensures FlushedTo(a, now, n + 1, vol, start, count, disk, nodeIsValid)
  {
  }

  lemma FlushSteps(s: Snapshot, now: seq<BufferHead>, n: nat, vol: nat, start: nat, count: nat, was: Disk, disk: Disk, nodeIsValid: (Content, Meta) -> bool)
    requires Consistent(s) && FlushedTo(s.heads, now, n, vol, start, count, was, nodeIsValid) && n < |s.heads| && ToFlush(s.heads[n], vol, start, count)
    requires Accepts(nodeIsValid, OnDisk(disk, s.heads[n].place), s.heads[n].meta)
    requires forall q | q != s.heads[n].place :: OnDisk(disk, q) == OnDisk(was, q)
    ensures |now| == |s.heads| && FlushedTo(s.heads, now[n := now[n].(dirty := false)], n + 1, vol, start, count, disk, nodeIsValid)
  {
    hide CleanAgree, OnDisk, Accepts;
  }

  /** No buffer but `b` holds a block. */
  ghost predicate NoneOther(heads: seq<BufferHead>, b: nat, p: Place) {
    forall k | 0 <= k < |heads| && k != b :: !heads[k].Holds(p)
  }

  /** Giving a clean buffer to another block, dirty: the blocks then have one
      buffer each if and only if no other buffer holds that block. */
  lemma Branching(s: Snapshot, b: nat, p: Place, h: BufferHead)
    requires Consistent(s) && b < |s.heads| && s.heads[b].valid && !s.heads[b].dirty
    requires h == s.heads[b].(dirty := true, place := p)
    ensures var t := s.(heads := s.heads[b := h]);
            && (Consistent(t) <==> NoneOther(s.heads, b, p))
            && (NoneOther(s.heads, b, p) ==>
                  && ViewOf(t, p) == s.buffers[b]
                  && forall q {:trigger ViewOf(t, q)} | q !in s.torn && q != p :: ViewOf(t, q) == ViewOf(s, q))
    ensures Used(s.heads[b := h]) == Used(s.heads)
  {
    UsedUpdate(s.heads, b, h);
    assert s.buffers[b := s.buffers[b]] == s.buffers;
    if NoneOther(s.heads, b, p) {
      Repurposing(s, b, p, h, s.buffers[b]);
    } else {
      var k :| 0 <= k < |s.heads| && k != b && s.heads[k].Holds(p);
      var heads := s.heads[b := h];
      assert heads[k].valid && heads[k].place == heads[b].place;
    }
  }
}
