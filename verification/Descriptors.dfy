/** File descriptors of posix/posix.c: a mount generation, a volume number and
    a handle index, packed into a non-negative 32-bit integer. */
module Descriptors {
  import opened Arithmetic

  const FD_GEN_MAX: nat := 0x7FF
  const FD_VOL_MAX: nat := 0xFF
  const FD_IDX_MAX: nat := 0xFFF
  const FD_MIN: nat := 3

  /** REDCONF_HANDLE_COUNT and REDCONF_VOLUME_COUNT. */
  type HandleCount = n: nat | 1 <= n <= FD_IDX_MAX + 1 witness 1
  const HANDLE_COUNT: HandleCount
  type VolumeCount = n: nat | 1 <= n <= FD_VOL_MAX witness 1
  const VOLUME_COUNT: VolumeCount

  /** The fields a descriptor is made of. */
  datatype Fields = Fields(index: nat, vol: nat, generation: nat)

  /** FildesPack(): the shifted fields do not overlap, so `|` adds them. */
  function Pack(f: Fields): int {
    if f.index >= HANDLE_COUNT || f.vol >= VOLUME_COUNT then
      -1
    else
      var bits := (f.generation * (FD_VOL_MAX + 1) + f.vol) * (FD_IDX_MAX + 1) + f.index;
      if bits < FD_MIN then -1 else bits
  }

  /** FildesUnpack(). */
  function Unpack(fd: nat): Fields {
    var upper := fd / (FD_IDX_MAX + 1);
    Fields(fd % (FD_IDX_MAX + 1), upper % (FD_VOL_MAX + 1), upper / (FD_VOL_MAX + 1) % (FD_GEN_MAX + 1))
  }

  /** What a handle is packed with while its volume is mounted. */
  ghost predicate Packable(f: Fields) {
    f.index < HANDLE_COUNT && f.vol < VOLUME_COUNT && 1 <= f.generation <= FD_GEN_MAX
  }

  /** Packing loses nothing, and gives no standard stream's number and none
      that needs the sign bit. */
  lemma UnpackInvertsPack(f: Fields)
    requires Packable(f)
    ensures FD_MIN <= Pack(f) < 0x8000_0000 && Unpack(Pack(f)) == f
  {
    var upper := f.generation * (FD_VOL_MAX + 1) + f.vol;
    QuotientIs(upper * (FD_IDX_MAX + 1) + f.index, FD_IDX_MAX + 1, upper, f.index);
    QuotientIs(upper, FD_VOL_MAX + 1, f.generation, f.vol);
  }

  /** It refuses what is no handle or volume, and what would be the number of a
      standard stream, which only a volume never mounted could have. */
  lemma PackRefuses(f: Fields)
    ensures Pack(f) == -1 <==>
              f.index >= HANDLE_COUNT || f.vol >= VOLUME_COUNT || (f.generation == 0 && f.vol == 0 && f.index < FD_MIN)
  {
    var upper := f.generation * (FD_VOL_MAX + 1) + f.vol;
    assert upper > 0 ==> upper * (FD_IDX_MAX + 1) >= FD_IDX_MAX + 1;
  }

  /** The generation after a number of mounts, as red_mount2() counts it. */
  function Generation(mounts: nat): (generation: nat)
    ensures generation <= FD_GEN_MAX && (generation == 0 <==> mounts == 0)
  {
    if mounts == 0 then 0 else
    var next := Generation(mounts - 1) + 1;
    if next > FD_GEN_MAX then 1 else next
  }

  lemma {:induction false} GenerationIs(mounts: nat)
    requires mounts > 0
    ensures Generation(mounts) == 1 + (mounts - 1) % FD_GEN_MAX
  {
    if mounts > 1 {
      GenerationIs(mounts - 1);
    }
  }

  /** Two mounts share a generation exactly if a multiple of FD_GEN_MAX apart. */
  lemma SameGeneration(m: nat, n: nat)
    requires 0 < m <= n
    ensures Generation(m) == Generation(n) <==> (n - m) % FD_GEN_MAX == 0
    ensures m < n < m + FD_GEN_MAX ==> Generation(m) != Generation(n)
  {
    GenerationIs(m);
    GenerationIs(n);
  }
}
