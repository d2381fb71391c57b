/** The mounted FAT32 volume: a handler that holds the device, the partition's geometry
    and the navigation state (the directories entered from the root, the listing of the
    current directory and its free-record count), and whose operations read and write
    the device one step at a time. Each method is proved equal to the function that
    states its effect in modules FatTable, ClusterIo and Directory. */
module FatEngine {
  import opened Bytes
  import opened FatGeometry
  import opened BlockDevice
  import opened FatTable
  import ClusterIo
  import opened Directory
  import opened Navigation

  class FatHandler {
    /** The medium. Writes replace it by the device after the write. */
    var dev: Device
    /** The mounted partition's boot-sector parameters. */
    var geom: Geometry
    /** The number of FAT reads after which a chain walk is taken not to end. */
    const fuel: nat
    /** The directories entered from the root, the current one last. */
    var path: seq<FileEntry>
    /** The listing of the current directory. */
    var content: seq<FileEntry>
    /** The free-record count stored with the listing. */
    var freeEntries: int

    /** The device is well formed and the geometry supported. */
    ghost predicate Mounted()
      reads this
    {
      Valid(dev) && Supported(geom)
    }

    /** Mounted, and every entry held carries a whole 32-byte record. */
    ghost predicate Ready()
      reads this
    {
      Mounted() && WholeRecords(path) && WholeRecords(content)
    }

    /** The handler over a device and a partition geometry, at the root with an empty
        listing (the path is created empty; mount fills the listing). */
    constructor(d: Device, g: Geometry, fuel: nat)
      requires Valid(d) && Supported(g)
      ensures Ready()
      ensures dev == d && geom == g && this.fuel == fuel
      ensures path == [] && content == [] && freeEntries == 0
    {
      dev := d;
      geom := g;
      this.fuel := fuel;
      path := [];
      content := [];
      freeEntries := 0;
    }

    /** `getClusterChain`: follow the FAT from cluster c until an entry equals the
        end-of-chain marker, one sector read per link. */
    method GetClusterChain(c: nat) returns (r: Outcome<seq<nat>>)
      requires Mounted()
      ensures r == ClusterChain(dev, geom, c, fuel)
    {
      var chain := [c];
      var cluster := c;
      var left := fuel;
      while true
        invariant Prepend(chain, Walk(dev, geom, cluster, left)) == ClusterChain(dev, geom, c, fuel)
        decreases left
      {
        if left == 0 {
          return Diverge;
        }
        var lba := EntryLba(geom, cluster);
        if lba !in dev.sectors {
          return Crash;
        }
        var sector := dev.sectors[lba];
        EntryAddressRoundTrip(geom, cluster);
        var indexes := RealIndexes(EntrySectorIndex(cluster));
        var next := Le32At(sector, indexes[0]);
        if next == EndOfChain {
          assert chain + [] == chain;
          return Done(chain);
        }
        PrependJoin(chain, [next], Walk(dev, geom, next, left - 1));
        chain := chain + [next];
        cluster := next;
        left := left - 1;
      }
    }

    /** `setClusterChain(n)`: scan the FAT sector by sector for zero entries, noting
        each one's sector and slot; once n are found, link them in order and stop. The
        scan reads the sectors from the first FAT sector up to and including the sector
        `sectorsPerFat` after it. */
    method SetClusterChain(n: nat) returns (r: Outcome<Option<seq<nat>>>)
      requires Mounted()
      modifies this
      ensures Mounted() && geom == old(geom)
      ensures path == old(path) && content == old(content) && freeEntries == old(freeEntries)
      ensures (dev, r) == Allocate(old(dev), geom, n)
    {
      var found: seq<nat> := [];
      var lbaChain := new int[n];
      var entries := new nat[n];
      var lbaFatStart := EntryLba(geom, 0);
      var lbaIndex := lbaFatStart;
      var lbaFatEnd := lbaFatStart + geom.sectorsPerFat;
      AllocateByScan(dev, geom, n);
      ghost var target := Scan(dev, geom, n);
      var s: nat := 0;
      while true
        invariant lbaFatStart == FatStart(geom) && lbaIndex == lbaFatStart + s && s <= geom.sectorsPerFat
        invariant dev == old(dev) && geom == old(geom)
        invariant path == old(path) && content == old(content) && freeEntries == old(freeEntries)
        invariant |found| < n || (n == 0 && found == [])
        invariant lbaChain.Length == n && entries.Length == n
        invariant forall k :: 0 <= k < |found| ==> Noted(dev, geom, found[k], lbaChain[k], entries[k])
        invariant ScanFrom(dev, geom, n, s, 0, found) == target
        decreases geom.sectorsPerFat - s
      {
        if lbaIndex !in dev.sectors {
          assert target == ScanCrash;
          return Crash;
        }
        var verdict;
        verdict, found := ScanSector(n, s, dev.sectors[lbaIndex], found, lbaChain, entries);
        if verdict == EmptyRequest {
          return Crash;
        } else if verdict == Complete {
          assert target == Found(found, s);
          LinkChain(found, lbaChain, entries);
          lbaIndex := lbaIndex + 1;
          if lbaIndex > lbaFatEnd {
            return Done(None);
          }
          return Done(Some(found));
        }
        lbaIndex := lbaIndex + 1;
        if lbaIndex > lbaFatEnd {
          ExhaustedAtLastSector(dev, geom, n, s, found);
          return Done(None);
        }
        NextSectorStep(dev, geom, n, s, found);
        s := s + 1;
      }
    }

    /** The inner loop of `setClusterChain` over the 128 slots of FAT sector s (its bytes
        are `data`): each zero entry's cluster is added to the found list and its place
        noted, until n are found. Its verdict, stated against the scan: the sector was
        passed with fewer than n found, the n-th was found here, or a zero entry met a
        request for 0 clusters (the store into an empty array). */
    method ScanSector(n: nat, s: nat, data: seq<byte>, found0: seq<nat>, lbaChain: array<int>, entries: array<nat>)
      returns (verdict: SectorVerdict, found: seq<nat>)
      requires Mounted()
      requires s <= geom.sectorsPerFat && FatStart(geom) + s in dev.sectors && data == dev.sectors[FatStart(geom) + s]
      requires |found0| < n || (n == 0 && found0 == [])
      requires lbaChain.Length == n && entries.Length == n
      requires forall k :: 0 <= k < |found0| ==> Noted(dev, geom, found0[k], lbaChain[k], entries[k])
      modifies lbaChain, entries
      ensures |found| <= n
      ensures forall k :: 0 <= k < |found| ==> Noted(dev, geom, found[k], lbaChain[k], entries[k])
      ensures verdict == Passed ==>
        && (|found| < n || (n == 0 && found == []))
        && ScanFrom(dev, geom, n, s, 0, found0) == ScanFrom(dev, geom, n, s, EntriesPerSector, found)
      ensures verdict == Complete ==> |found| == n && ScanFrom(dev, geom, n, s, 0, found0) == Found(found, s)
      ensures verdict == EmptyRequest ==> ScanFrom(dev, geom, n, s, 0, found0) == ScanCrash
    {
      found := found0;
      var indexEntry := 0;
      while indexEntry <= 127
        invariant indexEntry <= 128
        invariant |found| < n || (n == 0 && found == [])
        invariant forall k :: 0 <= k < |found| ==> Noted(dev, geom, found[k], lbaChain[k], entries[k])
        invariant ScanFrom(dev, geom, n, s, 0, found0) == ScanFrom(dev, geom, n, s, indexEntry, found)
      {
        var indexes := RealIndexes(indexEntry);
        var value := Le32At(data, indexes[0]);
        ScanSlot(dev, geom, n, s, indexEntry, found);
        if value == 0 {
          SlotAddressRoundTrip(geom, s, indexEntry);
          var lbaIndex := FatStart(geom) + s;
          var clusterEntry: nat := FatEntryFromLba(geom, lbaIndex, indexes[0]);
          if |found| == lbaChain.Length {
            return EmptyRequest, found;
          }
          var i := |found|;
          found := found + [clusterEntry];
          NoteSlot(found, lbaChain, entries, i, lbaIndex, indexEntry);
          if i + 1 == n {
            return Complete, found;
          }
        }
        indexEntry := indexEntry + 1;
      }
      return Passed, found;
    }

    /** Record where the i-th free cluster's entry lies. */
    method NoteSlot(found: seq<nat>, lbaChain: array<int>, entries: array<nat>, i: nat, lba: int, slot: nat)
      requires i < |found| && i < lbaChain.Length && i < entries.Length
      requires forall k :: 0 <= k < i ==> Noted(dev, geom, found[k], lbaChain[k], entries[k])
      requires Noted(dev, geom, found[i], lba, slot)
      modifies lbaChain, entries
      ensures forall k :: 0 <= k < i + 1 ==> Noted(dev, geom, found[k], lbaChain[k], entries[k])
    {
      lbaChain[i] := lba;
      entries[i] := slot;
    }

    /** The link pass of `setClusterChain`: for each found cluster in turn, re-read its
        FAT sector, put the next cluster (the marker for the last) in its slot, and write
        the sector back, ignoring the write's status. */
    method LinkChain(found: seq<nat>, lbaChain: array<int>, entries: array<nat>)
      requires Mounted()
      requires lbaChain.Length == entries.Length == |found|
      requires forall k :: 0 <= k < |found| ==> Noted(dev, geom, found[k], lbaChain[k], entries[k])
      modifies this
      ensures Mounted() && geom == old(geom)
      ensures path == old(path) && content == old(content) && freeEntries == old(freeEntries)
      ensures forall k :: 0 <= k < |found| ==> found[k] < TwoTo32
      ensures dev == LinkFrom(old(dev), geom, found, 0)
    {
      ghost var d0 := dev;
      assert forall k :: 0 <= k < |found| ==> found[k] < TwoTo32 by {
        forall k | 0 <= k < |found| ensures found[k] < TwoTo32 {
          assert Noted(d0, geom, found[k], lbaChain[k], entries[k]);
        }
      }
      var j := 0;
      while j <= |found| - 1
        invariant j <= |found|
        invariant Mounted() && geom == old(geom)
        invariant path == old(path) && content == old(content) && freeEntries == old(freeEntries)
        invariant dev.sectors.Keys == d0.sectors.Keys
        invariant LinkFrom(dev, geom, found, j) == LinkFrom(d0, geom, found, 0)
      {
        LinkOne(found, lbaChain, entries, j, d0);
        j := j + 1;
      }
    }

    /** The body of the link pass for found cluster j: its entry is set to the next
        cluster, or to the marker for the last. */
    method LinkOne(found: seq<nat>, lbaChain: array<int>, entries: array<nat>, j: nat, ghost d0: Device)
      requires Mounted() && j < |found|
      requires lbaChain.Length == entries.Length == |found|
      requires forall k :: 0 <= k < |found| ==> Noted(d0, geom, found[k], lbaChain[k], entries[k])
      requires forall k :: 0 <= k < |found| ==> found[k] < TwoTo32
      requires dev.sectors.Keys == d0.sectors.Keys
      modifies this
      ensures Mounted() && geom == old(geom)
      ensures path == old(path) && content == old(content) && freeEntries == old(freeEntries)
      ensures dev.sectors.Keys == d0.sectors.Keys
      ensures LinkFrom(dev, geom, found, j + 1) == LinkFrom(old(dev), geom, found, j)
    {
      var lba := lbaChain[j];
      assert Noted(d0, geom, found[j], lbaChain[j], entries[j]);
      var nextCluster;
      if j < |found| - 1 {
        nextCluster := found[j + 1];
      } else {
        nextCluster := EndOfChain;
      }
      var fatEntry := entries[j];
      LinkFromStep(dev, geom, found, j);
      SetFatEntry(found[j], lba, fatEntry, nextCluster);
    }

    /** One step of the link pass: re-read the FAT sector `lba`, put `value` in slot
        `slot` (the entry of cluster c), and write the sector back. */
    method SetFatEntry(c: nat, lba: int, slot: nat, value: nat)
      requires Mounted() && value < TwoTo32
      requires lba == EntryLba(geom, c) && lba in dev.sectors && slot == EntrySectorIndex(c)
      modifies this
      ensures Mounted() && geom == old(geom)
      ensures path == old(path) && content == old(content) && freeEntries == old(freeEntries)
      ensures dev == SetEntry(old(dev), geom, c, value)
    {
      var data2 := dev.sectors[lba];
      var currentIndexes := RealIndexes(slot);
      EntryAddressRoundTrip(geom, c);
      data2 := PutLe32(data2, currentIndexes[0], value);
      var written := WriteBytes(dev, lba, data2);
      dev := written.0;
    }

    /** `readClusters`: the clusters' bytes, copied one cluster at a time into a buffer
        sized for the whole list. */
    method ReadClusters(cs: seq<nat>) returns (r: Outcome<seq<byte>>)
      requires Mounted()
      ensures r == ClusterIo.ReadClusters(dev, geom, cs)
    {
      var cb := ClusterBytes(geom);
      var data := new byte[|cs| * cb];
      var index := 0;
      var k := 0;
      while k < |cs|
        invariant k <= |cs| && data.Length == |cs| * cb
        invariant ClusterIo.ReadClusters(dev, geom, cs[..k]).Done?
        invariant index == |ClusterIo.ReadClusters(dev, geom, cs[..k]).value| == k * cb
        invariant data[..index] == ClusterIo.ReadClusters(dev, geom, cs[..k]).value
      {
        ClusterIo.ReadClustersStep(dev, geom, cs, k);
        var clusterData := ClusterIo.ReadCluster(dev, geom, cs[k]);
        if clusterData.None? {
          return Crash;
        }
        ClusterIo.MulMono(k + 1, |cs|, cb);
        MulStep(k, cb);
        CopyInto(data, index, clusterData.value);
        index := index + cb;
        k := k + 1;
      }
      assert cs[..k] == cs;
      assert data[..] == data[..index];
      return Done(data[..]);
    }

    /** `writeClusters`: chunk k of the data goes to cluster cs[k] through one reused
        cluster-sized buffer; the first failed write ends it with false. */
    method WriteClusters(cs: seq<nat>, data: seq<byte>) returns (r: Outcome<bool>)
      requires Mounted()
      modifies this
      ensures Mounted() && geom == old(geom)
      ensures path == old(path) && content == old(content) && freeEntries == old(freeEntries)
      ensures (r, dev) == ClusterIo.WriteClusters(old(dev), geom, cs, data)
    {
      var cb := ClusterBytes(geom);
      var buffer := new byte[cb](i => 0);
      assert buffer[..] == ClusterIo.ZeroBuffer(cb);
      var k := 0;
      while k < |cs|
        invariant k <= |cs| && buffer.Length == cb
        invariant Mounted() && geom == old(geom)
        invariant path == old(path) && content == old(content) && freeEntries == old(freeEntries)
        invariant ClusterIo.WriteFrom(dev, geom, cs, data, k, buffer[..]) == ClusterIo.WriteClusters(old(dev), geom, cs, data)
      {
        ClusterIo.WriteFromUnfold(dev, geom, cs, data, k, buffer[..]);
        var filled := FillChunk(buffer, data, k);
        if !filled {
          return Crash;
        }
        var written := WriteBytes(dev, ClusterLba(geom, cs[k]), buffer[..]);
        dev := written.0;
        if !written.1 {
          return Done(false);
        }
        k := k + 1;
      }
      return Done(true);
    }

    /** `getFirstFileEntryIndex`: the byte offset of the first record whose first byte is
        zero; without one, the probe runs off the end of the buffer (an exception). */
    method GetFirstFileEntryIndex(data: seq<byte>) returns (r: Outcome<nat>)
      ensures r.Done? || r.Crash?
      ensures r.Done? ==>
        && r.value % 32 == 0 && r.value < |data| && data[r.value] == 0
        && forall p :: 0 <= p && 32 * p < r.value ==> data[32 * p] != 0
      ensures r.Crash? ==> forall p :: 0 <= p && 32 * p < |data| ==> data[32 * p] != 0
      ensures |data| % 32 == 0 ==> r == FirstFreeRecord(data)
    {
      var k := 0;
      while true
        invariant forall p :: 0 <= p < k ==> 32 * p < |data| && data[32 * p] != 0
        decreases |data| - 32 * k
      {
        if 32 * k >= |data| {
          FirstZeroIsStop(data, k);
          return Crash;
        }
        if data[k * 32] == 0 {
          FirstZeroIsStop(data, k);
          return Done(k * 32);
        }
        k := k + 1;
      }
    }

    /** `getFileEntries`: decode the records in order, gathering long-name fragments and
        attaching them, last gathered first, to the next normal record; at the first free
        record, compute the free-slot figure and stop. The figure is stored, the entries
        returned. */
    method GetFileEntries(data: seq<byte>) returns (entries: seq<FileEntry>)
      requires |data| % 32 == 0
      modifies this
      ensures dev == old(dev) && geom == old(geom) && path == old(path) && content == old(content)
      ensures Listing(entries, freeEntries) == Decode(data)
      ensures WholeRecords(entries)
    {
      var free := 0;
      entries := [];
      var longFileEntryNames: seq<seq<byte>> := [];
      var i := 0;
      var index1 := 32 * i;
      while index1 < |data|
        invariant index1 == 32 * i <= |data| && i <= Stop(data)
        invariant entries == Entries(data, i) && longFileEntryNames == Pending(data, i)
        invariant unchanged(this)
      {
        var bufferEntry := data[index1 .. index1 + 32];
        assert bufferEntry == Record(data, i);
        var b0, b11 := bufferEntry[0], bufferEntry[11];
        if (b0 != 0x00 && b0 != 0xE5) && (b11 == 0x0F || b11 == 0x1F || b11 == 0x2F || b11 == 0x3F) {
          longFileEntryNames := longFileEntryNames + [ParseLfn(bufferEntry)];
        } else if b0 != 0x00 && b0 != 0xE5 {
          var lfn := JoinNames(longFileEntryNames);
          entries := entries + [FileEntry(lfn, bufferEntry)];
          longFileEntryNames := [];
        } else if b0 == 0x00 {
          var freeBytes := |data| - index1;
          free := freeBytes / 32 + 1;
          if free % 32 != 0 {
            free := free + 1;
          }
          assert i == Stop(data) by {
            assert data[32 * i] == 0;
          }
          break;
        }
        i := i + 1;
        index1 := 32 * i;
      }
      freeEntries := free;
      EntriesAreWholeRecords(data, Stop(data));
    }

    /** The long name of a normal record: the gathered fragments joined from the last
        gathered to the first. */
    method JoinNames(longFileEntryNames: seq<seq<byte>>) returns (lfn: seq<byte>)
      ensures lfn == JoinReversed(longFileEntryNames)
    {
      lfn := [];
      var index2 := |longFileEntryNames| - 1;
      while index2 >= 0
        invariant -1 <= index2 < |longFileEntryNames|
        invariant lfn == JoinReversed(longFileEntryNames[index2 + 1..])
      {
        assert longFileEntryNames[index2..][1..] == longFileEntryNames[index2 + 1..];
        lfn := lfn + longFileEntryNames[index2];
        index2 := index2 - 1;
      }
      assert longFileEntryNames[0..] == longFileEntryNames;
    }

    /** The search of `changeDir` (wantDir) and `readFile` (!wantDir) through the current
        listing: the first entry whose name (the long name, or the short name when that is
        empty) equals `name` ignoring case and whose directory flag is wantDir. */
    method FindEntry(name: seq<byte>, wantDir: bool) returns (r: Option<nat>)
      requires WholeRecords(content)
      ensures r == FirstMatch(content, name, wantDir)
    {
      var j := 0;
      while j < |content|
        invariant j <= |content|
        invariant FirstMatch(content, name, wantDir) == FirstMatchFrom(content, name, wantDir, j)
      {
        var entry := content[j];
        var entryName;
        if entry.longName != [] {
          entryName := entry.longName;
        } else {
          entryName := ShortName(entry);
        }
        if EqualsIgnoreCase(entryName, name) && IsDirectory(entry) == wantDir {
          return Some(j);
        }
        j := j + 1;
      }
      return None;
    }

    /** Read the directory at cluster c and make it the listing (`getClusterChain`,
        `readClusters`, then `getFileEntries` into the listing and free count); a
        failed read leaves the listing as it was. */
    method Reload(c: nat) returns (r: Outcome<Listing>)
      requires Ready()
      modifies this
      ensures Ready() && dev == old(dev) && geom == old(geom) && path == old(path)
      ensures r == LoadDirectory(dev, geom, fuel, c)
      ensures r.Done? ==> Listing(content, freeEntries) == r.value
      ensures !r.Done? ==> content == old(content) && freeEntries == old(freeEntries)
    {
      var chain := GetClusterChain(c);
      if chain.Crash? {
        return Crash;
      }
      if chain.Diverge? {
        return Diverge;
      }
      var data := ReadClusters(chain.value);
      if !data.Done? {
        return Crash;
      }
      ClusterDataIsWholeRecords(|chain.value|, geom);
      var entries := GetFileEntries(data.value);
      content := entries;
      return Done(Listing(entries, freeEntries));
    }

    /** `changeDir(name)`. */
    method ChangeDir(name: seq<byte>) returns (r: Outcome<bool>)
      requires Ready()
      modifies this
      ensures Ready() && dev == old(dev) && geom == old(geom)
      ensures (Nav(path, content, freeEntries), r)
              == Navigation.ChangeDir(dev, geom, fuel, old(Nav(path, content, freeEntries)), name)
    {
      var found := FindEntry(name, true);
      if found.None? {
        return Done(false);
      }
      var entry := content[found.value];
      path := path + [entry];
      var l := Reload(FirstCluster(entry));
      if l.Crash? {
        return Crash;
      }
      if l.Diverge? {
        return Diverge;
      }
      return Done(true);
    }

    /** `changeDirBack()`. */
    method ChangeDirBack() returns (r: Outcome<bool>)
      requires Ready()
      modifies this
      ensures Ready() && dev == old(dev) && geom == old(geom)
      ensures (Nav(path, content, freeEntries), r)
              == Navigation.ChangeDirBack(dev, geom, fuel, old(Nav(path, content, freeEntries)))
    {
      if path == [] {
        return Done(false);
      }
      content := [];
      path := path[..|path| - 1];
      var c := RootCluster;
      if path != [] {
        c := FirstCluster(path[|path| - 1]);
      }
      var l := Reload(c);
      if l.Crash? {
        return Crash;
      }
      if l.Diverge? {
        return Diverge;
      }
      return Done(true);
    }

    /** `readFile(name)`. */
    method ReadFile(name: seq<byte>) returns (r: Outcome<Option<seq<byte>>>)
      requires Ready()
      ensures r == Navigation.ReadFile(dev, geom, fuel, content, name)
    {
      var found := FindEntry(name, false);
      if found.None? {
        return Done(None);
      }
      var entry := content[found.value];
      var chain := GetClusterChain(FirstCluster(entry));
      if chain.Crash? {
        return Crash;
      }
      if chain.Diverge? {
        return Diverge;
      }
      var data := ReadClusters(chain.value);
      if !data.Done? {
        return Crash;
      }
      var size := Size(entry);
      if size >= IntLimit {
        return Crash;
      }
      return Done(Some(CopyOf(data.value, size)));
    }

    /** `writeNewFile(data)`; rawEntry gives the new file's 32-byte record for its first
        cluster and size. The listing and free count are not refreshed. */
    method WriteNewFile(data: seq<byte>, rawEntry: (nat, nat) -> seq<byte>) returns (r: Outcome<bool>)
      requires Ready()
      modifies this
      ensures Ready() && geom == old(geom)
      ensures path == old(path) && content == old(content) && freeEntries == old(freeEntries)
      ensures (dev, r) == NewFile(old(dev), geom, fuel, path, data, rawEntry)
    {
      var clusterChain;
      if path != [] {
        var dir := path[|path| - 1];
        clusterChain := GetClusterChain(FirstCluster(dir));
      } else {
        clusterChain := GetClusterChain(RootCluster);
      }
      if clusterChain.Crash? {
        return Crash;
      }
      if clusterChain.Diverge? {
        return Diverge;
      }
      var dirData := ReadClusters(clusterChain.value);
      if !dirData.Done? {
        return Crash;
      }
      ClusterDataIsWholeRecords(|clusterChain.value|, geom);
      r := AllocateAndStore(clusterChain.value, dirData.value, data, rawEntry);
    }

    /** The middle of `writeNewFile`: ceil(|data| / cluster bytes) clusters are
        allocated; null ends the call with false. */
    method AllocateAndStore(dirChain: seq<nat>, dirData: seq<byte>, data: seq<byte>, rawEntry: (nat, nat) -> seq<byte>)
      returns (r: Outcome<bool>)
      requires Ready() && |dirData| % RecordSize == 0
      modifies this
      ensures Ready() && geom == old(geom)
      ensures path == old(path) && content == old(content) && freeEntries == old(freeEntries)
      ensures (dev, r) == NewFileInDirectory(old(dev), geom, dirChain, dirData, data, rawEntry)
    {
      var cb := ClusterBytes(geom);
      ClusterBytesPositive(geom);
      var clusters := |data| / cb;
      if |data| % cb != 0 {
        clusters := clusters + 1;
      }
      assert clusters == ClustersFor(|data|, cb);
      var fileClusterChain := SetClusterChain(clusters);
      if fileClusterChain.Crash? {
        return Crash;
      }
      if fileClusterChain.Diverge? {
        return Diverge;
      }
      if fileClusterChain.value.None? {
        return Done(false);
      }
      var cs := fileClusterChain.value.value;
      var raw := rawEntry(cs[0], |data|);
      r := StoreEntryAndData(dirChain, dirData, cs, data, raw);
    }

    /** The end of `writeNewFile`: the record goes to the directory's first free record,
        the directory is written back with its outcome ignored, then the data is written. */
    method StoreEntryAndData(dirChain: seq<nat>, dirData: seq<byte>, cs: seq<nat>, data: seq<byte>, raw: seq<byte>)
      returns (r: Outcome<bool>)
      requires Ready() && |dirData| % RecordSize == 0
      modifies this
      ensures Ready() && geom == old(geom)
      ensures path == old(path) && content == old(content) && freeEntries == old(freeEntries)
      ensures (dev, r) == StoreNewFile(old(dev), geom, dirChain, dirData, cs, data, raw)
    {
      var index := GetFirstFileEntryIndex(dirData);
      if index.Crash? {
        return Crash;
      }
      if index.value + |raw| > |dirData| {
        return Crash;
      }
      var dirWritten := WriteClusters(dirChain, Splice(dirData, index.value, raw));
      if !dirWritten.Done? {
        return dirWritten;
      }
      r := WriteClusters(cs, data);
    }

    /** `mount(index)` over the unit-ready status and the partition table parsed from
        sector 0, with Java's wrapping `index + 1`; the table's geometries are taken to be
        supported. */
    method Mount(unitReady: bool, partitions: seq<Geometry>, index: int) returns (r: Outcome<bool>)
      requires Ready() && IntMin <= index < IntLimit
      requires forall k :: 0 <= k < |partitions| ==> Supported(partitions[k])
      modifies this
      ensures Ready() && dev == old(dev)
      ensures (geom, Nav(path, content, freeEntries), r)
              == Navigation.Mount(dev, fuel, unitReady, partitions, index, old(geom), old(Nav(path, content, freeEntries)))
    {
      if !unitReady {
        return Done(false);
      }
      var mbr := ReadBytes(dev, 0, 1);
      if mbr.None? {
        return Crash;
      }
      if |partitions| >= AddInt(index, 1) {
        if index < 0 || |partitions| <= index {
          return Crash;
        }
        var partition := partitions[index];
        var bootSector := ReadBytes(dev, partition.partitionStart, 1);
        if bootSector.None? {
          return Crash;
        }
        geom := partition;
        var l := Reload(RootCluster);
        if l.Crash? {
          return Crash;
        }
        if l.Diverge? {
          return Diverge;
        }
        return Done(true);
      }
      return Done(false);
    }
  }

  /** The copy into the reused buffer for cluster k: the whole chunk of the data, or
      its tail over the buffer's previous contents. A chunk that would start past the
      end of the data is a negative-length copy, an exception in the engine (false). */
  method FillChunk(buffer: array<byte>, data: seq<byte>, k: nat) returns (filled: bool)
    modifies buffer
    ensures filled <==> k * buffer.Length <= |data|
    ensures filled ==> buffer[..] == ClusterIo.Chunk(data, old(buffer[..]), k, buffer.Length).value
    ensures !filled ==> buffer[..] == old(buffer[..])
  {
    var cb := buffer.Length;
    ghost var before := buffer[..];
    if k * cb + cb <= |data| {
      CopyInto(buffer, 0, data[k * cb .. k * cb + cb]);
      assert buffer[..] == data[k * cb .. k * cb + cb];
    } else if k * cb <= |data| {
      CopyInto(buffer, 0, data[k * cb ..]);
      assert buffer[..] == data[k * cb ..] + before[|data| - k * cb ..];
    } else {
      return false;
    }
    return true;
  }

  /** Where the scan noted cluster c: the sector holding its entry, which can be read,
      and the entry's slot in that sector. */
  ghost predicate Noted(d: Device, g: Geometry, c: nat, lba: int, slot: nat)
  {
    && c < ScannedClusters(g)
    && lba == EntryLba(g, c) && lba in d.sectors
    && slot == EntrySectorIndex(c)
  }

  /** The first zero probe of `getFirstFileEntryIndex` is the first free record. */
  lemma FirstZeroIsStop(data: seq<byte>, k: nat)
    requires forall p :: 0 <= p < k ==> 32 * p < |data| && data[32 * p] != 0
    requires 32 * k >= |data| || data[32 * k] == 0
    ensures |data| % 32 == 0 ==> (32 * k >= |data| <==> Stop(data) == RecordCount(data))
    ensures |data| % 32 == 0 && 32 * k < |data| ==> Stop(data) == k
  {
    if |data| % 32 == 0 {
      var s := Stop(data);
      assert s <= k;
    }
  }

  /** How the scan of one FAT sector ended. */
  datatype SectorVerdict = Passed | Complete | EmptyRequest

  /** `System.arraycopy(b, 0, data, index, |b|)`: b replaces the bytes from index on, and
      the bytes before index stay as they were. */
  method CopyInto(data: array<byte>, index: nat, b: seq<byte>)
    requires index + |b| <= data.Length
    modifies data
    ensures data[..index + |b|] == old(data[..index]) + b
    ensures data[index + |b|..] == old(data[index + |b|..])
  {
    forall i | 0 <= i < |b| {
      data[index + i] := b[i];
    }
    assert data[..index + |b|] == old(data[..index]) + b;
  }
}
