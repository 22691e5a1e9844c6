/** Stamping and validating metadata nodes: core/driver/buffercmn.c, and what
    the CRC of util/crc.c protects. */
module Nodes {
  import opened Errors
  import opened Constants
  import opened Memory
  import opened Crc
  import opened BufferView

  const META_SIG_MASTER: bv32 := 0x5453414D
  const META_SIG_IMAP: bv32 := 0x50414D49
  const META_SIG_INODE: bv32 := 0x444F4E49
  const META_SIG_DINDIR: bv32 := 0x494C4244
  const META_SIG_INDIR: bv32 := 0x49444E49
  const META_SIG_DIRECTORY: bv32 := 0x44524944

  const OFFSET_SIG: nat := 0
  const OFFSET_CRC: nat := 4
  const OFFSET_SEQ: nat := 8

  /** The signature of a type of node; 0 if it is not metadata. */
  function Signature(meta: Meta): bv32 {
    match meta
    case FileData => 0
    case Master => META_SIG_MASTER
    case Imap => META_SIG_IMAP
    case InodeNode => META_SIG_INODE
    case Dindir => META_SIG_DINDIR
    case Indir => META_SIG_INDIR
    case DirectoryNode => META_SIG_DIRECTORY
  }

  /** A number as the bytes that hold it in memory. */
  function Bytes32(v: bv32): (bytes: seq<byte>)
    ensures |bytes| == 4
  {
    [Narrow(v), Narrow(Down8(v)), Narrow(Down8(Down8(v))), Narrow(Down8(Down8(Down8(v))))]
  }

  function Narrow(v: bv32): byte {
    LowByte(v) as byte
  }

  function Bytes64(v: bv64): (bytes: seq<byte>)
    ensures |bytes| == 8
  {
    Bytes32((v & 0xFFFF_FFFF) as bv32) + Bytes32((v >> 32) as bv32)
  }

  function Number64(bytes: seq<byte>): bv64
    requires |bytes| == 8
  {
    Joined(Little(bytes[..4]), Little(bytes[4..]))
  }

  function Joined(low: bv32, high: bv32): bv64 {
    ((high as bv64) << 32) | (low as bv64)
  }

  lemma NarrowIs(v: bv32)
    ensures Wide(Narrow(v)) == LowByte(v)
  {
  }

  lemma LastByte(v: bv32)
    ensures LowByte(Down8(Down8(Down8(v)))) == Down8(Down8(Down8(v)))
  {
  }

  lemma LittleOfCons(b: byte, s: seq<byte>)
    ensures Little([b] + s) == Xor(Wide(b), Up8(Little(s)))
  {
    hide Xor, Up8, Wide;
    assert ([b] + s)[1..] == s;
  }

  lemma LittleOf4(a: byte, b: byte, c: byte, d: byte)
    ensures Little([a, b, c, d]) == Xor(Wide(a), Up8(Xor(Wide(b), Up8(Xor(Wide(c), Up8(Wide(d)))))))
  {
    hide Little, Xor, Up8, Wide;
    LittleOfOne([d]);
    LittleOfCons(c, [d]);
    LittleOfCons(b, [c, d]);
    LittleOfCons(a, [b, c, d]);
    assert [c] + [d] == [c, d];
    assert [b] + [c, d] == [b, c, d];
    assert [a] + [b, c, d] == [a, b, c, d];
  }

  lemma LittleOfBytes(v: bv32)
    ensures Little(Bytes32(v)) == v
  {
    hide Little, Xor, Up8, Down8, LowByte, Wide, Narrow;
    var v1, v2, v3 := Down8(v), Down8(Down8(v)), Down8(Down8(Down8(v)));
    NarrowIs(v);
    NarrowIs(v1);
    NarrowIs(v2);
    NarrowIs(v3);
    SplitRest(v);
    SplitRest(v1);
    SplitRest(v2);
    LastByte(v);
    LittleOf4(Narrow(v), Narrow(v1), Narrow(v2), Narrow(v3));
  }

  lemma JoinedHalves(v: bv64)
    ensures Joined((v & 0xFFFF_FFFF) as bv32, (v >> 32) as bv32) == v
  {
  }

  lemma NumberOfBytes(v: bv64)
    ensures Number64(Bytes64(v)) == v
  {
    var low, high := (v & 0xFFFF_FFFF) as bv32, (v >> 32) as bv32;
    LittleOfBytes(low);
    LittleOfBytes(high);
    JoinedHalves(v);
    hide Joined, Bytes32;
    assert Bytes64(v)[4..] == Bytes32(high) && Bytes64(v)[..4] == Bytes32(low);
  }

  /** RedCrcNode(): the CRC of a node, which leaves out the signature and the
      CRC itself. */
  function CrcNode(node: seq<byte>): bv32
    requires |node| >= NODEHEADER_SIZE
  {
    Crc32(0, node[OFFSET_SEQ..])
  }

  /** The fields of a node's header. */
  function SignatureOf(node: seq<byte>): bv32
    requires |node| >= NODEHEADER_SIZE
  {
    Little(node[..OFFSET_CRC])
  }

  function CrcOf(node: seq<byte>): bv32
    requires |node| >= NODEHEADER_SIZE
  {
    Little(node[OFFSET_CRC..OFFSET_SEQ])
  }

  function SequenceOf(node: seq<byte>): bv64
    requires |node| >= NODEHEADER_SIZE
  {
    Number64(node[OFFSET_SEQ..NODEHEADER_SIZE])
  }

  /** What RedBufferFinalize() makes of a node. */
  function Stamped(node: seq<byte>, meta: Meta, sequence: bv64): (stamped: seq<byte>)
    requires |node| >= NODEHEADER_SIZE
    ensures |stamped| == |node|
  {
    var covered := Bytes64(sequence) + node[NODEHEADER_SIZE..];
    Bytes32(Signature(meta)) + Bytes32(Crc32(0, covered)) + covered
  }

  predicate Earlier(a: bv64, b: bv64) {
    a < b
  }

  /** What RedBufferIsValid() accepts as a node of type `meta`, at a time when
      the volume's next sequence number is `sequence`. */
  predicate Acceptable(node: seq<byte>, meta: Meta, mounted: bool, sequence: bv64)
    requires |node| >= NODEHEADER_SIZE
  {
    && meta != FileData && SignatureOf(node) == Signature(meta)
    && CrcOf(node) == CrcNode(node)
    && (mounted ==> Earlier(SequenceOf(node), sequence))
  }

  /** The header that a stamped node shows. */
  lemma StampedShows(node: seq<byte>, meta: Meta, sequence: bv64)
    requires |node| >= NODEHEADER_SIZE
    ensures var stamped := Stamped(node, meta, sequence);
            && SignatureOf(stamped) == Signature(meta)
            && CrcOf(stamped) == CrcNode(stamped)
            && SequenceOf(stamped) == sequence
            && stamped[NODEHEADER_SIZE..] == node[NODEHEADER_SIZE..]
  {
    hide Little, Crc32, Number64, Bytes32, Bytes64;
    var covered := Bytes64(sequence) + node[NODEHEADER_SIZE..];
    var stamped := Stamped(node, meta, sequence);
    assert stamped[..OFFSET_CRC] == Bytes32(Signature(meta));
    assert stamped[OFFSET_CRC..OFFSET_SEQ] == Bytes32(Crc32(0, covered));
    assert stamped[OFFSET_SEQ..] == covered;
    assert stamped[OFFSET_SEQ..NODEHEADER_SIZE] == Bytes64(sequence);
    LittleOfBytes(Signature(meta));
    LittleOfBytes(Crc32(0, covered));
    NumberOfBytes(sequence);
  }

  /** A stamped node is accepted as a node of its type and of no other; while the
      volume is mounted, at every later time and at no other. */
  lemma StampedIsAccepted(node: seq<byte>, meta: Meta, sequence: bv64, expected: Meta, mounted: bool, now: bv64)
    requires |node| >= NODEHEADER_SIZE && meta != FileData
    ensures Acceptable(Stamped(node, meta, sequence), expected, mounted, now) <==>
              expected == meta && (mounted ==> sequence < now)
  {
    EarlierIs(sequence, now);
    hide Stamped, SignatureOf, CrcOf, CrcNode, SequenceOf, Signature, Earlier;
    StampedShows(node, meta, sequence);
    SignaturesDiffer(expected, meta);
  }

  lemma EarlierIs(a: bv64, b: bv64)
    ensures Earlier(a, b) <==> a < b
  {
  }

  lemma SignaturesDiffer(a: Meta, b: Meta)
    ensures Signature(a) == Signature(b) <==> a == b
  {
  }

  /** A node is accepted as of one type only. */
  lemma AcceptedAsOneType(node: seq<byte>, a: Meta, b: Meta, mounted: bool, sequence: bv64)
    requires |node| >= NODEHEADER_SIZE
    requires Acceptable(node, a, mounted, sequence) && Acceptable(node, b, mounted, sequence)
    ensures a == b
  {
  }

  /** Two nodes that differ, and only at up to four bytes from `at` on. */
  ghost predicate DifferAt(node: seq<byte>, other: seq<byte>, at: nat, length: nat) {
    && |node| == |other| && at + length <= |node| && length <= 4
    && node[..at] == other[..at] && node[at + length..] == other[at + length..]
    && node != other
  }

  /** A change confined to at most four consecutive bytes, all of them covered by
      the CRC or none of them, makes an accepted node unacceptable as a node of
      its type, at every time. */
  lemma ChangeIsRejected(node: seq<byte>, other: seq<byte>, at: nat, length: nat, meta: Meta, mounted: bool, sequence: bv64, later: bv64)
    requires |node| >= NODEHEADER_SIZE && Acceptable(node, meta, mounted, sequence)
    requires DifferAt(node, other, at, length) && (at >= OFFSET_SEQ || at + length <= OFFSET_SEQ)
    ensures !Acceptable(other, meta, mounted, later)
  {
    hide Little, Crc32, Number64;
    if at + length <= OFFSET_SEQ {
      HeaderChanges(node, other, at, length);
    } else {
      var before, after := node[OFFSET_SEQ..at], node[at + length..];
      CoveredSandwich(node, at, length);
      CoveredSandwich(other, at, length);
      assert other[OFFSET_SEQ..at] == other[..at][OFFSET_SEQ..] == before;
      Sandwich(node, at, length);
      Sandwich(other, at, length);
      BurstChangesCrc(0, before, node[at..at + length], other[at..at + length], after);
      assert node[OFFSET_CRC..OFFSET_SEQ] == node[..at][OFFSET_CRC..OFFSET_SEQ] == other[OFFSET_CRC..OFFSET_SEQ];
    }
  }

  lemma Sandwich(node: seq<byte>, at: nat, length: nat)
    requires at + length <= |node|
    ensures node == node[..at] + node[at..at + length] + node[at + length..]
  {
  }

  lemma CoveredSandwich(node: seq<byte>, at: nat, length: nat)
    requires OFFSET_SEQ <= at && at + length <= |node|
    ensures node[OFFSET_SEQ..] == node[OFFSET_SEQ..at] + node[at..at + length] + node[at + length..]
  {
  }

  /** A change to the signature, the CRC or both shows in one of them, and not in
      what the CRC covers. */
  lemma HeaderChanges(node: seq<byte>, other: seq<byte>, at: nat, length: nat)
    requires |node| >= NODEHEADER_SIZE && DifferAt(node, other, at, length) && at + length <= OFFSET_SEQ
    ensures CrcNode(other) == CrcNode(node)
    ensures SignatureOf(other) != SignatureOf(node) || CrcOf(other) != CrcOf(node)
  {
    ByField(node);
    ByField(other);
    assert node[OFFSET_SEQ..] == node[at + length..][OFFSET_SEQ - at - length..];
    assert other[OFFSET_SEQ..] == other[at + length..][OFFSET_SEQ - at - length..];
    if SignatureOf(other) == SignatureOf(node) && CrcOf(other) == CrcOf(node) {
      LittleIsInjective(node[..OFFSET_CRC], other[..OFFSET_CRC]);
      LittleIsInjective(node[OFFSET_CRC..OFFSET_SEQ], other[OFFSET_CRC..OFFSET_SEQ]);
    }
  }

  lemma ByField(node: seq<byte>)
    requires |node| >= NODEHEADER_SIZE
    ensures node == node[..OFFSET_CRC] + node[OFFSET_CRC..OFFSET_SEQ] + node[OFFSET_SEQ..]
  {
  }

  const UINT64_MAX: bv64 := 0xFFFF_FFFF_FFFF_FFFF

  /** A volume's ullSequence and fMounted. */
  class VolumeState {
    var sequence: bv64
    var mounted: bool

    /** RedVolSeqNumIncrement(). */
    method SeqNumIncrement() returns (status: Status)
      modifies this`sequence
      ensures old(sequence) == UINT64_MAX ==> status == Failure(EFUBAR) && sequence == old(sequence)
      ensures old(sequence) != UINT64_MAX ==> status == Success && sequence == old(sequence) + 1 && old(sequence) < sequence
    {
      if sequence == UINT64_MAX {
        return Failure(EFUBAR);
      }
      sequence := sequence + 1;
      status := Success;
    }

    /** RedBufferFinalize(): stamp a node for this volume. */
    method RedBufferFinalize(buffer: array<byte>, meta: Meta) returns (status: Status)
      requires buffer.Length >= NODEHEADER_SIZE
      modifies buffer, this`sequence
      ensures meta == FileData ==> status == Failure(EINVAL)
      ensures meta != FileData && old(sequence) == UINT64_MAX ==> status == Failure(EFUBAR)
      ensures meta != FileData && old(sequence) != UINT64_MAX ==> status == Success
      ensures status.Failure? ==> buffer[..] == old(buffer[..]) && sequence == old(sequence)
      ensures status.Success? ==> buffer[..] == Stamped(old(buffer[..]), meta, old(sequence)) && old(sequence) < sequence
    {
      if Signature(meta) == 0 {
        return Failure(EINVAL);
      }
      var seqNum := sequence;
      status := SeqNumIncrement();
      if status.Success? {
        Stamp(buffer, meta, seqNum);
      }
    }

    /** RedBufferIsValid(). */
    method RedBufferIsValid(buffer: array<byte>, meta: Meta, address: nat) returns (valid: bool)
      requires buffer.Length >= NODEHEADER_SIZE
      ensures valid == Acceptable(buffer[..], meta, mounted, sequence)
    {
      hide Crc32, Little, Number64;
      valid := meta != FileData && Little(buffer[..OFFSET_CRC]) == Signature(meta);
      if valid {
        var computed := Crc32SliceBy8(0, buffer[OFFSET_SEQ..], address);
        assert buffer[OFFSET_SEQ..] == buffer[..][OFFSET_SEQ..];
        if Little(buffer[OFFSET_CRC..OFFSET_SEQ]) != computed {
          valid := false;
        } else if mounted && Number64(buffer[OFFSET_SEQ..NODEHEADER_SIZE]) >= sequence {
          valid := false;
        }
      }
    }
  }

  /** Write the header: signature and sequence number, then the CRC. */
  method Stamp(buffer: array<byte>, meta: Meta, seqNum: bv64)
    requires buffer.Length >= NODEHEADER_SIZE
    modifies buffer
    ensures buffer[..] == Stamped(old(buffer[..]), meta, seqNum)
  {
    hide Crc32, Bytes32, Bytes64;
    MemCopy(buffer, OFFSET_SIG, Bytes32(Signature(meta)));
    MemCopy(buffer, OFFSET_SEQ, Bytes64(seqNum));
    ghost var covered := Bytes64(seqNum) + old(buffer[..])[NODEHEADER_SIZE..];
    assert buffer[OFFSET_SEQ..] == covered;
    var crc := Crc32SliceBy8(0, buffer[OFFSET_SEQ..], 0);
    MemCopy(buffer, OFFSET_CRC, Bytes32(crc));
    assert buffer[OFFSET_SEQ..] == covered;
    assert buffer[..OFFSET_CRC] == Bytes32(Signature(meta));
    assert buffer[..] == buffer[..OFFSET_CRC] + buffer[OFFSET_CRC..OFFSET_SEQ] + buffer[OFFSET_SEQ..];
  }
}
