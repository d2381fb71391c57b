/** FAT32 address arithmetic: where a cluster's FAT entry lives and where its data
    starts, for the mounted partition's boot-sector parameters. */
module FatGeometry {

  /** Bytes per sector. The engine hard-codes 512-byte sectors (128 four-byte FAT
      entries per sector, 512-byte write blocks). */
  const SectorSize: nat := 512
  const EntriesPerSector: nat := 128

  /** The end-of-chain marker the engine compares against, exactly (no 28-bit mask). */
  const EndOfChain: nat := 0xFFFFFFF

  /** The partition start and the reserved-region fields the arithmetic reads. */
  datatype Geometry = Geometry(
    partitionStart: nat,
    reservedSectors: nat,
    sectorsPerCluster: nat,
    fatCopies: nat,
    sectorsPerFat: nat)

  /** The geometry of a FAT32 volume: clusters are non-empty, and every cluster number
      the first FAT (plus the one sector the allocator reads past it) can describe is
      below the end-of-chain marker. */
  predicate Supported(g: Geometry)
  {
    && g.sectorsPerCluster >= 1
    && (g.sectorsPerFat + 1) * 128 <= EndOfChain
  }

  /** First sector of the first FAT (`getEntryLBA(0)`). */
  function FatStart(g: Geometry): nat
  {
    g.partitionStart + g.reservedSectors
  }

  /** `getEntryLBA`: the sector that holds the FAT entry of `entry`. */
  function EntryLba(g: Geometry, entry: nat): (lba: nat)
    ensures FatStart(g) <= lba
    ensures (lba - FatStart(g)) * 128 <= entry < (lba - FatStart(g) + 1) * 128
  {
    FatStart(g) + entry / 128
  }

  /** `getEntrySectorIndex`: the position of `entry` among the 128 entries of its sector. */
  function EntrySectorIndex(entry: nat): (i: nat)
    ensures i < EntriesPerSector
  {
    entry - (entry / 128) * 128
  }

  /** `getRealIndexes`: the four byte offsets of entry `entryBlock` inside its sector. */
  function RealIndexes(entryBlock: nat): (ix: seq<nat>)
    ensures |ix| == 4
    ensures forall k :: 0 <= k < 4 ==> ix[k] == 4 * entryBlock + k
  {
    var value := 4 * entryBlock;
    [value, value + 1, value + 2, value + 3]
  }

  /** `getFatEntryFromLBA`: the cluster whose entry sits at byte `index` of FAT sector `lba`. */
  function FatEntryFromLba(g: Geometry, lba: int, index: nat): int
  {
    (lba - FatStart(g)) * 128 + index / 4
  }

  /** The first sector of the data region (`firstClusterLba` in the cluster I/O). */
  function FirstDataLba(g: Geometry): nat
  {
    g.partitionStart + g.reservedSectors + g.fatCopies * g.sectorsPerFat
  }

  /** The first sector of data cluster `c` (`lbaCluster` in the cluster I/O). */
  function ClusterLba(g: Geometry, c: nat): int
  {
    FirstDataLba(g) + (c - 2) * g.sectorsPerCluster
  }

  /** Bytes per cluster. */
  function ClusterBytes(g: Geometry): nat
  {
    g.sectorsPerCluster * SectorSize
  }

  /** A cluster of at least one sector holds at least one sector's bytes. */
  lemma ClusterBytesPositive(g: Geometry)
    requires g.sectorsPerCluster >= 1
    ensures ClusterBytes(g) >= SectorSize
  {
    MulGap(0, g.sectorsPerCluster, SectorSize);
  }

  /** The entry of cluster c is found at sector `FatStart + c/128`, bytes `4*(c mod 128)`
      to `+3`, and decoding that location gives back c. */
  lemma EntryAddressRoundTrip(g: Geometry, c: nat)
    ensures EntryLba(g, c) == FatStart(g) + c / 128
    ensures EntrySectorIndex(c) == c % 128
    ensures RealIndexes(EntrySectorIndex(c))[3] < SectorSize
    ensures FatEntryFromLba(g, EntryLba(g, c), RealIndexes(EntrySectorIndex(c))[0]) == c
  {
    var q, i := c / 128, EntrySectorIndex(c);
    assert c == q * 128 + c % 128;
    assert i == c % 128;
    assert (4 * i) / 4 == i;
  }

  /** Conversely, the cluster decoded from slot i of FAT sector s is `128*s + i`, and its
      entry lives at exactly that slot. */
  lemma SlotAddressRoundTrip(g: Geometry, s: nat, i: nat)
    requires i < EntriesPerSector
    ensures FatEntryFromLba(g, FatStart(g) + s, 4 * i) == s * 128 + i
    ensures EntryLba(g, s * 128 + i) == FatStart(g) + s
    ensures EntrySectorIndex(s * 128 + i) == i
  {
    var c := s * 128 + i;
    assert (4 * i) / 4 == i;
    assert c / 128 == s by {
      assert c == s * 128 + i;
    }
  }

  lemma MulStep(a: nat, c: nat)
    ensures (a + 1) * c == a * c + c
  {
  }

  /** a < b gives a whole multiple of c between a*c and b*c. */
  lemma {:induction false} MulGap(a: nat, b: nat, c: nat)
    requires a < b
    ensures a * c + c <= b * c
    decreases b - a
  {
    MulStep(a, c);
    if a + 1 < b {
      MulGap(a + 1, b, c);
    }
  }

  /** Distinct data clusters occupy disjoint sector runs, in cluster order, and every
      cluster numbered 2 or more lies at or after the end of the FAT copies. */
  lemma ClusterRunsOrdered(g: Geometry, c: nat, d: nat)
    requires g.sectorsPerCluster >= 1
    requires 2 <= c < d
    ensures FirstDataLba(g) <= ClusterLba(g, c)
    ensures ClusterLba(g, c) + g.sectorsPerCluster <= ClusterLba(g, d)
  {
    var spc := g.sectorsPerCluster;
    var a: nat, b: nat := c - 2, d - 2;
    MulGap(a, b, spc);
    assert 0 <= a * spc by {
      if a > 0 { MulGap(0, a, spc); }
    }
  }
}
