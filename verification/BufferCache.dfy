/** The block buffers of core/driver/buffer.c. */
module BufferCache {
  import opened Errors
  import opened Memory
  import opened BufferView
  import opened Recency

  type BufferCount = n: nat | 1 <= n <= 255 witness 1
  /** REDCONF_BUFFER_COUNT. */
  const BUFFERS: BufferCount

  class Cache {
    const heads: array<BufferHead>
    const mru: array<nat>
    const buffers: array<Content>
    var numUsed: nat
    var disk: Disk
    /** gbRedVolNum, and each volume's ulBlockCount. */
    var vol: nat
    const blockCount: nat -> nat
    /** RedBufferIsValid() on a metadata block just read. */
    const nodeIsValid: (Content, Meta) -> bool
    /** Whether the disk never fails, nor the stamping of a node. */
    const sound: bool
    ghost var torn: set<Place>
    ghost var lastUse: seq<int>
    ghost var now: int
    ghost var never: int

    ghost predicate Valid()
      reads this, heads, mru, buffers
    {
      && heads.Length == BUFFERS && buffers.Length == BUFFERS
      && numUsed == Used(heads[..])
      && Consistent(State())
      && ValidOrder()
      && Stampable(nodeIsValid)
    }

    ghost predicate ValidOrder()
      reads this, mru
    {
      && mru.Length == BUFFERS
      && Permutation(mru[..], BUFFERS)
      && |lastUse| == BUFFERS
      && Recent(mru[..], lastUse)
      && (forall b | 0 <= b < BUFFERS :: never < lastUse[b] < now)
    }

    ghost function State(): Snapshot
      reads this, heads, buffers
    {
      Snapshot(heads[..], buffers[..], disk, torn)
    }

    /** RedBufferInit(). */
    constructor (disk: Disk, vol: nat, blockCount: nat -> nat, nodeIsValid: (Content, Meta) -> bool, sound: bool)
      requires Stampable(nodeIsValid)
      ensures Valid() && State().disk == disk && torn == {} && numUsed == 0
      ensures this.vol == vol && this.blockCount == blockCount && this.nodeIsValid == nodeIsValid && this.sound == sound
      ensures forall i | 0 <= i < BUFFERS :: mru[i] == BUFFERS - 1 - i && !heads[i].valid
      ensures fresh(heads) && fresh(mru) && fresh(buffers)
    {
      this.disk := disk;
      this.vol := vol;
      this.blockCount := blockCount;
      this.nodeIsValid := nodeIsValid;
      this.sound := sound;
      heads := new BufferHead[BUFFERS](_ => BufferHead(false, Place(0, 0), 0, false, FileData));
      mru := new nat[BUFFERS](i requires 0 <= i < BUFFERS => BUFFERS - 1 - i);
      buffers := new Content[BUFFERS](_ => Zeroed());
      numUsed := 0;
      torn := {};
      lastUse := seq(BUFFERS, i => i);
      now := BUFFERS;
      never := -1;
      new;
      NoneUsed(heads[..]);
    }

    method BufferFind(block: nat) returns (found: bool, b: nat)
      requires Valid()
      ensures b == Find(heads[..], Place(vol, block), 0) <= BUFFERS
      ensures found <==> b < BUFFERS
    {
      ghost var all := heads[..];
      b := 0;
      while b < BUFFERS
        invariant b <= BUFFERS
        invariant Find(all, Place(vol, block), 0) == Find(all, Place(vol, block), b)
      {
        if heads[b].valid && heads[b].place == Place(vol, block) {
          return true, b;
        }
        b := b + 1;
      }
      found := false;
    }

    /** Move entry `i` to the front of the array, and those before it up. */
    method MoveFirst(i: nat)
      requires i < mru.Length
      modifies mru
      ensures mru[..] == MadeFirst(old(mru[..]), i)
    {
      var b := mru[i];
      MemMove(mru, 1, 0, i);
      mru[0] := b;
    }

    /** Move entry `i` to the back, and those after it down. */
    method MoveLast(i: nat)
      requires i < mru.Length
      modifies mru
      ensures mru[..] == MadeLast(old(mru[..]), i)
    {
      var b := mru[i];
      MemMove(mru, i, i + 1, mru.Length - (i + 1));
      mru[mru.Length - 1] := b;
    }

    /** BufferMakeMRU(). */
    method BufferMakeMRU(b: nat)
      requires ValidOrder() && b < BUFFERS
      modifies mru, this`lastUse, this`now
      ensures ValidOrder() && lastUse == old(lastUse)[b := old(now)]
      ensures exists k :: 0 <= k < BUFFERS && old(mru[k]) == b && mru[..] == MadeFirst(old(mru[..]), k)
    {
      ghost var before := mru[..];
      ghost var k := Position(before, BUFFERS, b);
      MovesPermute(before, BUFFERS, k);
      UsedIsFirst(before, BUFFERS, lastUse, k, now);
      if b != mru[0] {
        var i := 1;
        while i < BUFFERS && b != mru[i]
          invariant 1 <= i <= k
        {
          i := i + 1;
        }
        MoveFirst(i);
      }
      assert mru[..] == MadeFirst(before, k);
      lastUse := lastUse[b := now];
      now := now + 1;
    }

    /** BufferMakeLRU(). */
    method BufferMakeLRU(b: nat)
      requires ValidOrder() && b < BUFFERS
      modifies mru, this`lastUse, this`never
      ensures ValidOrder() && lastUse == old(lastUse)[b := old(never)]
      ensures exists k :: 0 <= k < BUFFERS && old(mru[k]) == b && mru[..] == MadeLast(old(mru[..]), k)
    {
      ghost var before := mru[..];
      ghost var k := Position(before, BUFFERS, b);
      MovesPermute(before, BUFFERS, k);
      DiscardedIsLast(before, BUFFERS, lastUse, k, never);
      if b != mru[BUFFERS - 1] {
        var i := 0;
        while i < BUFFERS - 1 && b != mru[i]
          invariant 0 <= i <= k
        {
          i := i + 1;
        }
        MoveLast(i);
      }
      assert mru[..] == MadeLast(before, k);
      lastUse := lastUse[b := never];
      never := never - 1;
    }

    /** What RedBufferGet() accepts as read for a block of a type. */
    predicate Readable(content: Content, meta: Meta) {
      Accepts(nodeIsValid, content, meta)
    }

    /** RedIoRead(): it may fail, having filled the buffer with anything. */
    method IoRead(p: Place) returns (status: Status, content: Content)
      ensures status == Success ==> content == OnDisk(disk, p)
      ensures status.Failure? ==> status == Failure(EIO) && !sound
    {
      var good: bool := *;
      if good || sound {
        return Success, OnDisk(disk, p);
      }
      content := *;
      status := Failure(EIO);
    }

    /** RedIoWrite(): it may fail, having left anything in the block. */
    method IoWrite(p: Place, content: Content) returns (status: Status)
      modifies this`disk
      ensures forall q | q != p :: OnDisk(disk, q) == OnDisk(old(disk), q)
      ensures status == Success ==> OnDisk(disk, p) == content
      ensures status.Failure? ==> status == Failure(EIO) && !sound
    {
      var good: bool := *;
      if good || sound {
        disk := disk[p := content];
        return Success;
      }
      var partial: Content := *;
      disk := disk[p := partial];
      status := Failure(EIO);
    }

    /** BufferWrite(): stamp a metadata buffer, and write the buffer out.  The
        stamp, RedBufferFinalize(), replaces the header so that the node is
        valid, or fails.  So what is written can be read again. */
    method BufferWrite(b: nat) returns (status: Status)
      requires Valid() && b < BUFFERS && heads[b].valid && heads[b].dirty
      modifies buffers, this`disk, this`torn
      ensures Valid() && WrittenOut(old(State()), State(), b, status.Success?)
      ensures WriteStatus(heads[b].meta, status) && (sound ==> status.Success?)
      ensures status.Success? ==> Readable(OnDisk(disk, heads[b].place), heads[b].meta)
    {
      ghost var before := State();
      if heads[b].meta != FileData {
        var stamped: bool := *;
        if !stamped && !sound {
          var error: Errno :| error == EINVAL || error == EFUBAR;
          return Failure(error);
        }
        assert CanStamp(nodeIsValid, buffers[b], heads[b].meta);
        var header :| nodeIsValid(buffers[b].(header := header), heads[b].meta);
        buffers[b] := buffers[b].(header := header);
      }
      status := IoWrite(heads[b].place, buffers[b]);
      if status.Success? {
        torn := torn - {heads[b].place};
      }
      WritingOutIsTransparent(before, State(), b, status.Success?);
    }

    /** Of the unreferenced buffers the one used longest ago. */
    ghost predicate IsVictim(b: nat)
      reads this, heads
    {
      && heads.Length == |lastUse| == BUFFERS && b < BUFFERS && heads[b].refs == 0
      && forall c | 0 <= c < BUFFERS && heads[c].refs == 0 :: lastUse[b] <= lastUse[c]
    }

    /** The search of RedBufferGet() for a victim: of the unreferenced buffers
        the one used least recently, discarded buffers first. */
    method FindVictim() returns (b: nat)
      requires Valid() && numUsed < BUFFERS
      ensures IsVictim(b)
    {
      ghost var order := mru[..];
      SomeUnused(heads[..]);
      ghost var unused :| 0 <= unused < BUFFERS && heads[unused].refs == 0;
      ghost var at := Position(order, BUFFERS, unused);
      var i := BUFFERS - 1;
      while i > 0
        invariant at <= i < BUFFERS
        invariant forall k | i < k < BUFFERS :: heads[mru[k]].refs > 0
      {
        if heads[mru[i]].refs == 0 {
          break;
        }
        i := i - 1;
      }
      b := mru[i];
      forall c | 0 <= c < BUFFERS && heads[c].refs == 0
        ensures lastUse[b] <= lastUse[c]
      {
        var k := Position(order, BUFFERS, c);
      }
    }

    /** The victim, written out if it has to be. */
    method Evict() returns (status: Status, b: nat)
      requires Valid() && numUsed < BUFFERS
      modifies buffers, this`disk, this`torn
      ensures Valid() && heads[..] == old(heads[..])
      ensures IsVictim(b)
      ensures status.Failure? ==> !sound && heads[b].valid && heads[b].dirty && WriteStatus(heads[b].meta, status)
      ensures Transparent(old(State()), State(), {}) && torn <= old(torn)
      ensures forall p | Find(heads[..], p, 0) == BUFFERS :: OnDisk(disk, p) == OnDisk(old(disk), p)
      ensures status.Success? && heads[b].valid && heads[b].place !in torn
              ==> buffers[b] == OnDisk(disk, heads[b].place)
    {
      b := FindVictim();
      status := Success;
      SameIsTransparent(State());
      if heads[b].dirty && heads[b].valid {
        ghost var before := State();
        FindIs(before.heads, heads[b].place, b);
        status := BufferWrite(b);
        WritingOutIsTransparent(before, State(), b, status.Success?);
      }
    }

    /** The last steps of RedBufferGet(): reference the buffer, update its flags
        and make it the most recently used. */
    method Reference(b: nat, dirty: bool, meta: Meta)
      requires ValidOrder() && b < BUFFERS == heads.Length
      modifies this`numUsed, this`lastUse, this`now, heads, mru
      ensures ValidOrder() && lastUse == old(lastUse)[b := old(now)]
      ensures heads[..] == old(heads[..])[b := old(Referenced(heads[b], dirty, meta))]
      ensures numUsed == old(numUsed) + (if old(heads[b].refs) == 0 then 1 else 0)
    {
      heads[b] := heads[b].(refs := heads[b].refs + 1);
      if heads[b].refs == 1 {
        numUsed := numUsed + 1;
      }
      heads[b] := heads[b].(dirty := heads[b].dirty || dirty, meta := meta);
      BufferMakeMRU(b);
    }

    /** The part of RedBufferGet() that fills buffer `b`, the victim. */
    method Fill(b: nat, p: Place, isNew: bool, meta: Meta) returns (status: Status)
      requires b < heads.Length == buffers.Length
      modifies heads, buffers
      ensures heads[..] == old(heads[..])[b := if isNew then old(heads[b]) else old(heads[b]).(valid := false)]
      ensures buffers[..] == old(buffers[..])[b := buffers[b]]
      ensures status.Success? ==> buffers[b] == (if isNew then Zeroed() else OnDisk(disk, p))
      ensures status.Failure? ==> status == Failure(EIO) && !isNew && (sound ==> !Readable(OnDisk(disk, p), meta))
      ensures status.Success? && !isNew ==> Readable(OnDisk(disk, p), meta)
    {
      status := Success;
      if isNew {
        buffers[b] := Zeroed();
      } else {
        heads[b] := heads[b].(valid := false);
        var content;
        status, content := IoRead(p);
        buffers[b] := content;
        if status.Success? && meta != FileData && !nodeIsValid(content, meta) {
          status := Failure(EIO);
        }
      }
    }

    /** The part of RedBufferGet() that gives buffer `b` its new name. */
    method Install(b: nat, p: Place, dirty: bool, meta: Meta)
      requires ValidOrder() && b < BUFFERS == heads.Length && heads[b].refs == 0
      modifies this`numUsed, this`lastUse, this`now, heads, mru
      ensures ValidOrder() && lastUse == old(lastUse)[b := old(now)]
      ensures heads[..] == old(heads[..])[b := BufferHead(true, p, 1, dirty, meta)]
      ensures numUsed == old(numUsed) + 1
    {
      heads[b] := heads[b].(valid := true, place := p, dirty := false, meta := FileData);
      Reference(b, dirty, meta);
    }

    /** Give buffer `b`, the victim, to a block that has no buffer. */
    method Load(b: nat, p: Place, dirty: bool, isNew: bool, meta: Meta) returns (status: Status)
      requires Valid() && b < BUFFERS && heads[b].refs == 0
      requires heads[b].valid && heads[b].place !in torn ==> buffers[b] == OnDisk(disk, heads[b].place)
      requires Find(heads[..], p, 0) == BUFFERS && (isNew ==> dirty)
      modifies this`numUsed, this`lastUse, this`now, heads, mru, buffers
      ensures Valid()
      ensures status.Failure? ==>
                && !isNew && status == Failure(EIO) && numUsed == old(numUsed)
                && (sound ==> !Readable(OnDisk(disk, p), meta))
                && heads[..] == old(heads[..])[b := old(heads[b]).(valid := false)]
                && mru[..] == old(mru[..]) && lastUse == old(lastUse)
                && Transparent(old(State()), State(), {})
      ensures status.Success? ==>
                && Got(old(State()), State(), b, p, dirty, isNew, meta)
                && lastUse == old(lastUse)[b := old(now)]
                && (isNew || Readable(OnDisk(disk, p), meta))
    {
      hide Unique, CleanAgree, Used, View, Find, Got, Transparent;
      ghost var before := State();
      status := Fill(b, p, isNew, meta);
      if status.Success? {
        Install(b, p, dirty, meta);
      }
      LoadedGets(before, State(), b, p, dirty, isNew, meta, status.Success?);
    }

    /** RedBufferGet() for a block that has a buffer. */
    method Hit(b: nat, dirty: bool, isNew: bool, meta: Meta) returns (status: Status)
      requires Valid() && b < BUFFERS && heads[b].valid
      modifies this`numUsed, this`lastUse, this`now, heads, mru
      ensures Valid()
      ensures status == if isNew || meta != old(heads[b].meta) then Failure(EFUBAR) else Success
      ensures status.Failure? ==>
                numUsed == old(numUsed) && State() == old(State()) && mru[..] == old(mru[..]) && lastUse == old(lastUse)
      ensures status.Success? ==>
                && Got(old(State()), State(), b, old(heads[b].place), dirty, isNew, meta)
                && lastUse == old(lastUse)[b := old(now)]
    {
      if isNew || meta != heads[b].meta {
        return Failure(EFUBAR);
      }
      ghost var before := State();
      FindIs(before.heads, heads[b].place, b);
      Relabelling(before, b, Referenced(heads[b], dirty, meta));
      Reference(b, dirty, meta);
      status := Success;
    }

    /** RedBufferGet() for a block that has no buffer. */
    method Miss(p: Place, dirty: bool, isNew: bool, meta: Meta) returns (status: Status, b: nat)
      requires Valid() && Find(heads[..], p, 0) == BUFFERS && (isNew ==> dirty)
      modifies this`numUsed, this`lastUse, this`now, this`disk, this`torn, heads, mru, buffers
      ensures Valid() && torn <= old(torn)
      ensures status == Failure(EBUSY) <==> old(numUsed) == BUFFERS
      ensures old(numUsed) < BUFFERS ==> old(IsVictim(b))
      ensures status.Failure? ==>
                && numUsed == old(numUsed) && mru[..] == old(mru[..]) && lastUse == old(lastUse)
                && (old(numUsed) == BUFFERS ==> heads[..] == old(heads[..]))
                && (old(numUsed) < BUFFERS ==> Missed(old(State()), State(), b, isNew, status))
                && Transparent(old(State()), State(), {})
      ensures status.Success? ==>
                && Got(old(State()), State(), b, p, dirty, isNew, meta)
                && lastUse == old(lastUse)[b := old(now)]
                && (isNew || Readable(old(OnDisk(disk, p)), meta))
      ensures sound && old(numUsed) < BUFFERS ==> (status.Success? <==> isNew || Readable(old(OnDisk(disk, p)), meta))
    {
      ghost var before := State();
      SomeUnused(heads[..]);
      hide Unique, CleanAgree, View, Used, Got;
      if numUsed == BUFFERS {
        SameIsTransparent(before);
        return Failure(EBUSY), 0;
      }
      status, b := Evict();
      ghost var evicted := State();
      if status.Success? {
        status := Load(b, p, dirty, isNew, meta);
        Composed(before, evicted, State(), {}, if status.Success? then {p} else {});
      }
    }

    /** RedBufferGet().  The reference count is a byte in the program. */
    method RedBufferGet(block: nat, dirty: bool, isNew: bool, meta: Meta) returns (status: Status, b: nat)
      requires Valid() && forall i | 0 <= i < BUFFERS :: heads[i].refs < 255
      modifies this`numUsed, this`lastUse, this`now, this`disk, this`torn, heads, mru, buffers
      ensures Valid() && torn <= old(torn)
      ensures block >= blockCount(vol) || (isNew && !dirty) ==> status == Failure(EINVAL) && State() == old(State())
      ensures block < blockCount(vol) && (isNew ==> dirty) ==>
                var was := old(Find(heads[..], Place(vol, block), 0));
                if was < BUFFERS then
                  && status == (if isNew || meta != old(heads[..])[was].meta then Failure(EFUBAR) else Success)
                  && (status.Failure? ==> State() == old(State()))
                else
                  && (status == Failure(EBUSY) <==> old(numUsed) == BUFFERS)
                  && (old(numUsed) == BUFFERS ==> heads[..] == old(heads[..]))
                  && (old(numUsed) < BUFFERS ==> old(IsVictim(b)))
                  && (old(numUsed) < BUFFERS && status.Failure? ==> Missed(old(State()), State(), b, isNew, status))
                  && (status.Success? ==> isNew || meta == FileData || nodeIsValid(old(OnDisk(disk, Place(vol, block))), meta))
                  && (sound && old(numUsed) < BUFFERS ==>
                        (status.Success? <==> isNew || meta == FileData || nodeIsValid(old(OnDisk(disk, Place(vol, block))), meta)))
      ensures status.Failure? ==>
                && numUsed == old(numUsed) && mru[..] == old(mru[..]) && lastUse == old(lastUse)
                && Transparent(old(State()), State(), {})
      ensures status.Success? ==>
                && block < blockCount(vol) && InUse(b) && heads[b].refs > 0
                && Got(old(State()), State(), b, Place(vol, block), dirty, isNew, meta)
                && lastUse == old(lastUse)[b := old(now)]
    {
      hide Unique, CleanAgree, View, Used, Got, Missed;
      ghost var before := State();
      SameIsTransparent(before);
      if block >= blockCount(vol) || (isNew && !dirty) {
        return Failure(EINVAL), 0;
      }
      var found;
      found, b := BufferFind(block);
      if found {
        status := Hit(b, dirty, isNew, meta);
      } else {
        status, b := Miss(Place(vol, block), dirty, isNew, meta);
      }
      if status.Success? {
        GotHolds(before, State(), b, Place(vol, block), dirty, isNew, meta);
      }
    }

    /** BufferToIdx() finds the buffer in use on the current volume. */
    predicate InUse(b: nat)
      reads this, heads
    {
      b < heads.Length && heads[b].valid && heads[b].place.vol == vol
    }

    /** RedBufferPut(). */
    method RedBufferPut(b: nat)
      requires Valid() && (InUse(b) ==> heads[b].refs > 0)
      modifies this`numUsed, heads
      ensures Valid() && Transparent(old(State()), State(), {})
      ensures heads[..] == if old(InUse(b)) then old(heads[..])[b := old(heads[b]).(refs := old(heads[b].refs) - 1)] else old(heads[..])
    {
      SameIsTransparent(State());
      if InUse(b) {
        Relabelling(State(), b, heads[b].(refs := heads[b].refs - 1));
        heads[b] := heads[b].(refs := heads[b].refs - 1);
        if heads[b].refs == 0 {
          numUsed := numUsed - 1;
        }
      }
    }

    /** RedBufferDirty(). */
    method RedBufferDirty(b: nat)
      requires Valid() && (InUse(b) ==> heads[b].refs > 0)
      modifies heads
      ensures Valid() && Transparent(old(State()), State(), {})
      ensures heads[..] == if old(InUse(b)) then old(heads[..])[b := old(heads[b]).(dirty := true)] else old(heads[..])
    {
      SameIsTransparent(State());
      if InUse(b) {
        Relabelling(State(), b, heads[b].(dirty := true));
        heads[b] := heads[b].(dirty := true);
      }
    }

    /** What a caller does with a dirty buffer it references: change it. */
    method Modify(b: nat, content: Content)
      requires Valid() && InUse(b) && heads[b].refs > 0 && heads[b].dirty
      modifies buffers
      ensures Valid() && Transparent(old(State()), State(), {heads[b].place})
      ensures ViewOf(State(), heads[b].place) == content
    {
      ghost var before := State();
      buffers[b] := content;
      FindIs(before.heads, heads[b].place, b);
    }

    /** RedBufferBranch(): the buffer becomes that of another block.  That leaves
        at most one buffer a block if and only if no other buffer holds it. */
    method RedBufferBranch(b: nat, blockNew: nat)
      requires Valid() && (InUse(b) ==> heads[b].refs > 0 && !heads[b].dirty)
      modifies heads
      ensures !old(InUse(b)) || blockNew >= blockCount(vol) ==> Valid() && heads[..] == old(heads[..])
      ensures old(InUse(b)) && blockNew < blockCount(vol) ==>
                && heads[..] == old(heads[..])[b := old(heads[b]).(dirty := true, place := Place(vol, blockNew))]
                && (Valid() <==> old(NoneOther(heads[..], b, Place(vol, blockNew))))
      ensures old(InUse(b)) && blockNew < blockCount(vol) && old(NoneOther(heads[..], b, Place(vol, blockNew))) ==>
                && ViewOf(State(), Place(vol, blockNew)) == buffers[b]
                && (forall q {:trigger ViewOf(State(), q)} | q !in torn && q != Place(vol, blockNew) ::
                      ViewOf(State(), q) == old(ViewOf(State(), q)))
    {
      if InUse(b) && blockNew < blockCount(vol) {
        ghost var before := State();
        heads[b] := heads[b].(dirty := true, place := Place(vol, blockNew));
        Branching(before, b, Place(vol, blockNew), heads[b]);
        assert State() == before.(heads := before.heads[b := heads[b]]);
      }
    }

    /** RedBufferDiscard(). */
    method RedBufferDiscard(b: nat)
      requires Valid() && (InUse(b) ==> heads[b].refs == 1)
      modifies this`numUsed, this`lastUse, this`never, heads, mru
      ensures Valid()
      ensures !old(InUse(b)) ==> State() == old(State())
      ensures old(InUse(b)) ==>
                && heads[..] == old(heads[..])[b := old(heads[b]).(refs := 0, valid := false)]
                && Transparent(old(State()), State(), {old(heads[b].place)})
                && ViewOf(State(), old(heads[b].place)) == OnDisk(disk, old(heads[b].place))
                && (forall c | 0 <= c < BUFFERS && c != b :: lastUse[b] < lastUse[c])
    {
      if InUse(b) {
        ghost var before := State();
        heads[b] := heads[b].(refs := 0, valid := false);
        UsedUpdate(before.heads, b, heads[b]);
        numUsed := numUsed - 1;
        BufferMakeLRU(b);
        Dropping(before, b, heads[b]);
        assert State() == before.(heads := before.heads[b := heads[b]]);
      }
    }

    /** How the range operations test a range. */
    predicate BadRange(start: nat, count: nat)
      reads this
    {
      start >= blockCount(vol) || blockCount(vol) - start < count || count == 0
    }

    /** A range that is not empty, all of whose blocks are in the volume. */
    ghost predicate InVolume(start: nat, count: nat)
      reads this
    {
      count > 0 && forall p | InRange(p, vol, start, count) :: p.block < blockCount(vol)
    }

    /** The test refuses every other range and no such range; the whole of a
        volume is one. */
    lemma RangeTestIs(start: nat, count: nat)
      ensures BadRange(start, count) <==> !InVolume(start, count)
      ensures start == 0 && count == blockCount(vol) > 0 ==> InVolume(start, count)
    {
      if InVolume(start, count) {
        assert InRange(Place(vol, start + count - 1), vol, start, count);
      }
    }

    /** RedBufferFlushRange(): nothing reads differently, and on success no
        buffer of the range is dirty, and what was can be read again. */
    method RedBufferFlushRange(start: nat, count: nat) returns (status: Status)
      requires Valid()
      modifies this`disk, this`torn, heads, buffers
      ensures Valid() && torn <= old(torn)
      ensures !InVolume(start, count) ==> status == Failure(EINVAL) && State() == old(State())
      ensures Transparent(old(State()), State(), {})
      ensures InVolume(start, count) && status.Failure? ==> !sound && FlushMayFail(old(heads[..]), vol, start, count, status)
      ensures sound && start == 0 && count == blockCount(vol) > 0 ==> status.Success?
      ensures SameButClean(old(heads[..]), heads[..], vol, start, count)
      ensures status.Success? ==> CleanIn(heads[..], BUFFERS, vol, start, count)
      ensures status.Success? ==> forall i | 0 <= i < BUFFERS && ToFlush(old(heads[i]), vol, start, count) ::
                Readable(OnDisk(disk, old(heads[i]).place), old(heads[i]).meta)
    {
      SameIsTransparent(State());
      RangeTestIs(start, count);
      if BadRange(start, count) {
        return Failure(EINVAL);
      }
      status := FlushAll(start, count);
    }

    /** The loop of RedBufferFlushRange(). */
    method FlushAll(start: nat, count: nat) returns (status: Status)
      requires Valid()
      modifies this`disk, this`torn, heads, buffers
      ensures Valid() && torn <= old(torn)
      ensures Transparent(old(State()), State(), {})
      ensures status.Failure? ==> !sound && FlushMayFail(old(heads[..]), vol, start, count, status)
      ensures SameButClean(old(heads[..]), heads[..], vol, start, count)
      ensures status.Success? ==> FlushedTo(old(heads[..]), heads[..], BUFFERS, vol, start, count, disk, nodeIsValid)
    {
      hide Consistent, View, Find, Transparent, FlushMayFail, FlushedTo, ToFlush, SameButClean;
      status := Success;
      ghost var before := State();
      SameIsTransparent(before);
      FlushStarts(before.heads, vol, start, count, disk, nodeIsValid);
      var b := 0;
      while b < BUFFERS
        invariant b <= BUFFERS && Valid() && status.Success? && torn <= before.torn
        invariant Transparent(before, State(), {})
        invariant FlushedTo(before.heads, heads[..], b, vol, start, count, disk, nodeIsValid)
      {
        FlushedAt(before.heads, heads[..], b, vol, start, count, disk, nodeIsValid);
        if ToFlush(heads[b], vol, start, count) {
          status := FlushInRange(before, b, start, count);
          if status.Failure? {
            return;
          }
        } else {
          FlushSkips(before.heads, heads[..], b, vol, start, count, disk, nodeIsValid);
        }
        b := b + 1;
      }
      FlushedSame(before.heads, heads[..], b, vol, start, count, disk, nodeIsValid);
    }

    /** One step of a flush of a range that began in `before`. */
    method FlushInRange(ghost before: Snapshot, b: nat, start: nat, count: nat) returns (status: Status)
      requires Valid() && b < BUFFERS && ToFlush(heads[b], vol, start, count)
      requires Consistent(before) && torn <= before.torn && Transparent(before, State(), {})
      requires FlushedTo(before.heads, heads[..], b, vol, start, count, disk, nodeIsValid)
      modifies this`disk, this`torn, heads, buffers
      ensures Valid() && torn <= before.torn && Transparent(before, State(), {})
      ensures status.Success? ==> FlushedTo(before.heads, heads[..], b + 1, vol, start, count, disk, nodeIsValid)
      ensures status.Failure? ==>
                && !sound && FlushMayFail(before.heads, vol, start, count, status)
                && SameButClean(before.heads, heads[..], vol, start, count)
    {
      ghost var mid, was := State(), disk;
      status := FlushOne(b);
      hide Consistent, View, Find, Transparent, Used, FlushedTo, SameButClean;
      FlushedSame(before.heads, mid.heads, b, vol, start, count, was, nodeIsValid);
      FlushedAt(before.heads, mid.heads, b, vol, start, count, was, nodeIsValid);
      SameMeta(before, mid, vol, start, count);
      Composed(before, mid, State(), {}, {});
      if status.Success? {
        FlushSteps(before, mid.heads, b, vol, start, count, was, disk, nodeIsValid);
      } else {
        assert FlushFails(before.heads, b, vol, start, count, status);
      }
    }

    /** One step of RedBufferFlushRange(). */
    method FlushOne(b: nat) returns (status: Status)
      requires Valid() && b < BUFFERS && heads[b].valid && heads[b].dirty
      modifies this`disk, this`torn, heads, buffers
      ensures Valid() && torn <= old(torn)
      ensures Transparent(old(State()), State(), {})
      ensures heads[..] == if status.Success? then old(heads[..])[b := old(heads[b]).(dirty := false)] else old(heads[..])
      ensures WriteStatus(old(heads[b]).meta, status) && (sound ==> status.Success?)
      ensures status.Success? ==> Readable(OnDisk(disk, old(heads[b]).place), old(heads[b]).meta)
      ensures forall q | q != old(heads[b]).place :: OnDisk(disk, q) == OnDisk(old(disk), q)
    {
      ghost var before := State();
      status := BufferWrite(b);
      WritingOutIsTransparent(before, State(), b, status.Success?);
      if status.Success? {
        Relabelling(State(), b, heads[b].(dirty := false));
        heads[b] := heads[b].(dirty := false);
      }
    }

    /** One step of RedBufferDiscardRange(). */
    method DiscardOne(b: nat)
      requires Valid() && b < BUFFERS && heads[b].valid && heads[b].refs == 0
      modifies this`lastUse, this`never, heads, mru
      ensures Valid() && heads[..] == old(heads[..])[b := old(heads[b]).(valid := false)]
      ensures forall q {:trigger ViewOf(State(), q)} | q != old(heads[b].place) ::
                ViewOf(State(), q) == old(ViewOf(State(), q))
      ensures lastUse == old(lastUse)[b := old(never)]
    {
      ghost var before := State();
      heads[b] := heads[b].(valid := false);
      UsedUpdate(before.heads, b, heads[b]);
      BufferMakeLRU(b);
      Dropping(before, b, heads[b]);
      assert State() == before.(heads := before.heads[b := heads[b]]);
    }

    /** RedBufferDiscardRange(): after it the range reads as the disk does. */
    method RedBufferDiscardRange(start: nat, count: nat) returns (status: Status)
      requires Valid()
      modifies this`lastUse, this`never, heads, mru
      ensures Valid()
      ensures !InVolume(start, count) ==> status == Failure(EINVAL) && State() == old(State())
      ensures SameButGone(old(heads[..]), heads[..], vol, start, count)
      ensures forall q {:trigger ViewOf(State(), q)} | !InRange(q, vol, start, count) ::
                ViewOf(State(), q) == old(ViewOf(State(), q))
      ensures InVolume(start, count) ==>
                (status.Success? <==> !SomeReferenced(old(heads[..]), vol, start, count))
      ensures status.Failure? && InVolume(start, count) ==> status == Failure(EBUSY)
      ensures status.Success? ==> NoneIn(heads[..], BUFFERS, vol, start, count)
    {
      RangeTestIs(start, count);
      if BadRange(start, count) {
        return Failure(EINVAL);
      }
      hide View, Find, Unique, CleanAgree, Used;
      ghost var before := heads[..];
      var b := 0;
      while b < BUFFERS
        invariant b <= BUFFERS && Valid()
        invariant SameButGone(before, heads[..], vol, start, count)
        invariant forall q {:trigger ViewOf(State(), q)} | !InRange(q, vol, start, count) ::
                    ViewOf(State(), q) == old(ViewOf(State(), q))
        invariant forall i | b <= i < BUFFERS :: heads[i] == before[i]
        invariant forall i | 0 <= i < b && before[i].valid && InRange(before[i].place, vol, start, count) :: before[i].refs == 0
        invariant NoneIn(heads[..], b, vol, start, count)
      {
        if heads[b].valid && InRange(heads[b].place, vol, start, count) {
          if heads[b].refs > 0 {
            return Failure(EBUSY);
          }
          DiscardOne(b);
        }
        b := b + 1;
      }
      status := Success;
    }

    /** RedIoRead() of several blocks. */
    method IoReadRange(start: nat, count: nat) returns (status: Status, contents: seq<Content>)
      ensures status.Success? ==> |contents| == count
      ensures status.Success? ==> forall k | 0 <= k < count :: contents[k] == OnDisk(disk, Place(vol, start + k))
      ensures status.Failure? ==> status == Failure(EIO) && !sound
    {
      var good: bool := *;
      if good || sound {
        var now, on := disk, vol;
        return Success, seq(count, k requires 0 <= k < count => OnDisk(now, Place(on, start + k)));
      }
      contents := *;
      status := Failure(EIO);
    }

    /** RedIoWrite() of several blocks: if it fails, they may hold anything. */
    method IoWriteRange(start: nat, contents: seq<Content>) returns (status: Status)
      modifies this`disk
      ensures forall q | !InRange(q, vol, start, |contents|) :: OnDisk(disk, q) == OnDisk(old(disk), q)
      ensures status.Success? ==> forall k | 0 <= k < |contents| :: OnDisk(disk, Place(vol, start + k)) == contents[k]
      ensures status.Failure? ==> status == Failure(EIO) && !sound
    {
      var good: bool := *;
      good := good || sound;
      var k := 0;
      while k < |contents|
        invariant k <= |contents|
        invariant forall q | !InRange(q, vol, start, |contents|) :: OnDisk(disk, q) == OnDisk(old(disk), q)
        invariant good ==> forall i | 0 <= i < k :: OnDisk(disk, Place(vol, start + i)) == contents[i]
      {
        var partial: Content := *;
        disk := disk[Place(vol, start + k) := if good then contents[k] else partial];
        k := k + 1;
      }
      status := if good then Success else Failure(EIO);
    }

    /** RedBufferReadRange(): what the range reads as, though read from disk. */
    method RedBufferReadRange(start: nat, count: nat) returns (status: Status, contents: seq<Content>)
      requires Valid()
      modifies this`disk, this`torn, heads, buffers
      ensures Valid() && torn <= old(torn) && Transparent(old(State()), State(), {})
      ensures !InVolume(start, count) ==> status == Failure(EINVAL) && State() == old(State())
      ensures InVolume(start, count) && status.Failure? ==> !sound
      ensures InVolume(start, count) && status.Failure? ==> status == Failure(EIO) || FlushMayFail(old(heads[..]), vol, start, count, status)
      ensures status.Success? ==> |contents| == count
      ensures status.Success? ==> forall k | 0 <= k < count && Place(vol, start + k) !in torn ::
                contents[k] == ViewOf(State(), Place(vol, start + k))
    {
      contents := [];
      status := RedBufferFlushRange(start, count);
      if status.Success? {
        status, contents := IoReadRange(start, count);
      }
    }

    /** The write to disk of RedBufferWriteRange(): until the buffers of the range
        are discarded, it is torn. */
    method WritePast(start: nat, contents: seq<Content>) returns (status: Status)
      requires Valid()
      modifies this`disk, this`torn
      ensures Valid() && torn == old(torn) + Range(vol, start, |contents|)
      ensures forall q {:trigger ViewOf(State(), q)} | !InRange(q, vol, start, |contents|) ::
                ViewOf(State(), q) == old(ViewOf(State(), q))
      ensures status.Success? ==> forall k | 0 <= k < |contents| :: OnDisk(disk, Place(vol, start + k)) == contents[k]
      ensures status.Failure? ==> status == Failure(EIO) && !sound
    {
      ghost var before := State();
      status := IoWriteRange(start, contents);
      torn := torn + Range(vol, start, |contents|);
      WritingPast(before, State(), vol, start, |contents|);
    }

    /** The discarding of RedBufferWriteRange(): if it succeeds, the range is no
        longer torn. */
    method DropWritten(start: nat, contents: seq<Content>, ghost wasTorn: set<Place>) returns (status: Status)
      requires Valid() && InVolume(start, |contents|)
      requires torn == wasTorn + Range(vol, start, |contents|)
      requires forall k | 0 <= k < |contents| :: OnDisk(disk, Place(vol, start + k)) == contents[k]
      modifies this`torn, this`lastUse, this`never, heads, mru
      ensures Valid()
      ensures forall q {:trigger ViewOf(State(), q)} | !InRange(q, vol, start, |contents|) ::
                ViewOf(State(), q) == old(ViewOf(State(), q))
      ensures status.Success? ==> forall k | 0 <= k < |contents| ::
                ViewOf(State(), Place(vol, start + k)) == contents[k]
      ensures torn == if status.Success? then wasTorn - Range(vol, start, |contents|) else old(torn)
      ensures status.Failure? ==> status == Failure(EBUSY)
      ensures status.Failure? <==> SomeReferenced(old(heads[..]), vol, start, |contents|)
    {
      hide Consistent, View, Find, Range, NoneIn, SameButGone;
      status := RedBufferDiscardRange(start, |contents|);
      if status.Success? {
        ghost var dropped := State();
        Rewritten(dropped, vol, start, contents, wasTorn);
        torn := wasTorn - Range(vol, start, |contents|);
        assert State() == dropped.(torn := torn);
      }
    }

    /** RedBufferWriteRange(): the range then reads as what was written, though
        it went straight to disk.  If it fails, the range is left torn: the disk
        may hold anything, or, if a buffer was referenced, what was written. */
    method RedBufferWriteRange(start: nat, contents: seq<Content>) returns (status: Status)
      requires Valid()
      modifies this`disk, this`torn, this`lastUse, this`never, heads, mru
      ensures Valid()
      ensures !InVolume(start, |contents|) ==> status == Failure(EINVAL) && State() == old(State())
      ensures InVolume(start, |contents|) ==> status.Success? || status == Failure(EIO) || status == Failure(EBUSY)
      ensures status == Failure(EBUSY) ==>
                forall k | 0 <= k < |contents| :: OnDisk(disk, Place(vol, start + k)) == contents[k]
      ensures status == Failure(EIO) ==> !sound && heads[..] == old(heads[..])
      ensures InVolume(start, |contents|) && status != Failure(EIO) ==>
                (status == Failure(EBUSY) <==> SomeReferenced(old(heads[..]), vol, start, |contents|))
      ensures forall q {:trigger ViewOf(State(), q)} | !InRange(q, vol, start, |contents|) ::
                ViewOf(State(), q) == old(ViewOf(State(), q))
      ensures status.Success? ==> forall k | 0 <= k < |contents| ::
                ViewOf(State(), Place(vol, start + k)) == contents[k]
      ensures torn == if status.Success? then old(torn) - Range(vol, start, |contents|)
                      else if !InVolume(start, |contents|) then old(torn) else old(torn) + Range(vol, start, |contents|)
    {
      RangeTestIs(start, |contents|);
      if BadRange(start, |contents|) {
        return Failure(EINVAL);
      }
      hide View, Find, Range, NoneIn, SameButGone, Unique, CleanAgree;
      ghost var wasTorn := torn;
      status := WritePast(start, contents);
      if status.Success? {
        status := DropWritten(start, contents, wasTorn);
      }
    }
  }

  lemma {:induction false} NoneUsed(heads: seq<BufferHead>)
    requires forall h | h in heads :: h.refs == 0
    ensures Used(heads) == 0
  {
    if heads != [] {
      assert heads[0] in heads;
      NoneUsed(heads[1..]);
    }
  }
}
