/** A synchronous block device of 512-byte sectors on which any read or write may fail.
    A read fails when one of its sectors is absent; a write fails when one of its
    sectors is absent or refuses writes, and then changes nothing. */
module BlockDevice {
  import opened Bytes
  import opened FatGeometry

  datatype Device = Device(sectors: map<int, seq<byte>>, failing: set<int>)

  ghost predicate Valid(d: Device)
  {
    forall lba :: lba in d.sectors ==> |d.sectors[lba]| == SectorSize
  }

  /** Sector j (512 bytes) of a buffer. */
  function SectorOf(data: seq<byte>, j: nat): (r: seq<byte>)
    requires (j + 1) * SectorSize <= |data|
    ensures |r| == SectorSize
  {
    data[j * SectorSize .. (j + 1) * SectorSize]
  }

  /** `readBytes(lba, count)`: the concatenation of `count` sectors, or None. */
  function ReadBytes(d: Device, lba: int, count: nat): (r: Option<seq<byte>>)
    requires Valid(d)
    ensures r.Some? <==> forall x :: lba <= x < lba + count ==> x in d.sectors
    ensures r.Some? ==> |r.value| == count * SectorSize
    decreases count
  {
    if count == 0 then Some([])
    else match ReadBytes(d, lba, count - 1)
      case None => None
      case Some(prefix) =>
        if lba + count - 1 in d.sectors then Some(prefix + d.sectors[lba + count - 1]) else None
  }

  /** Sector k of a successful multi-sector read is the device's sector lba+k. */
  lemma {:induction false} ReadBytesAt(d: Device, lba: int, count: nat, k: nat)
    requires Valid(d)
    requires ReadBytes(d, lba, count).Some?
    requires k < count
    ensures (k + 1) * SectorSize <= count * SectorSize
    ensures lba + k in d.sectors
    ensures SectorOf(ReadBytes(d, lba, count).value, k) == d.sectors[lba + k]
  {
    var r := ReadBytes(d, lba, count).value;
    var prefix := ReadBytes(d, lba, count - 1).value;
    assert r == prefix + d.sectors[lba + count - 1];
    if k < count - 1 {
      ReadBytesAt(d, lba, count - 1, k);
      assert (k + 1) * SectorSize <= |prefix|;
      assert SectorOf(r, k) == SectorOf(prefix, k);
    } else {
      assert k * SectorSize == |prefix|;
      assert SectorOf(r, k) == r[|prefix|..];
    }
  }

  /** Whether a write of `count` sectors at `lba` can succeed. */
  predicate Writable(d: Device, lba: int, count: nat)
  {
    forall x :: lba <= x < lba + count ==> x in d.sectors && x !in d.failing
  }

  /** `writeBytes(lba, data)`: the device after the write, and its status. A failed
      write changes nothing. */
  function WriteBytes(d: Device, lba: int, data: seq<byte>): (r: (Device, bool))
    requires Valid(d)
    requires |data| % SectorSize == 0
    ensures Valid(r.0)
    ensures r.1 <==> Writable(d, lba, |data| / SectorSize)
    ensures r.0.failing == d.failing && r.0.sectors.Keys == d.sectors.Keys
    ensures !r.1 ==> r.0 == d
    ensures r.1 ==> forall x :: lba <= x < lba + |data| / SectorSize ==>
              x in r.0.sectors && r.0.sectors[x] == SectorOf(data, x - lba)
    ensures forall x :: x in d.sectors && !(lba <= x < lba + |data| / SectorSize) ==>
              r.0.sectors[x] == d.sectors[x]
  {
    var n := |data| / SectorSize;
    if Writable(d, lba, n) then
      var m := map x | x in d.sectors :: if lba <= x < lba + n then SectorOf(data, x - lba) else d.sectors[x];
      (Device(m, d.failing), true)
    else
      (d, false)
  }
}
