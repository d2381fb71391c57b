/** What the handler's public operations do, stated over values: the device, the
    geometry, the walk bound and the navigation state before a call give the state
    after it and the call's outcome. The class in module FatEngine performs each
    operation step by step and is proved equal to the function here. */
module Navigation {
  import opened Bytes
  import opened FatGeometry
  import opened BlockDevice
  import opened FatTable
  import ClusterIo
  import opened Directory

  /** The first cluster of the root directory. */
  const RootCluster: nat := 2

  /** The largest `int` plus one: a size cast to `int` at or above it turns negative. */
  const IntLimit: nat := 0x8000_0000
  /** The smallest `int`. */
  const IntMin: int := -0x8000_0000

  /** Java's `int` addition: the sum wrapped into the 32-bit range, equal to the sum
      whenever the sum fits. */
  function AddInt(a: int, b: int): (r: int)
    requires IntMin <= a < IntLimit && IntMin <= b < IntLimit
    ensures IntMin <= r < IntLimit
    ensures (a + b - r) % (2 * IntLimit) == 0
    ensures IntMin <= a + b < IntLimit ==> r == a + b
  {
    if a + b >= IntLimit then a + b - 2 * IntLimit
    else if a + b < IntMin then a + b + 2 * IntLimit
    else a + b
  }

  /** The navigation state: the directories entered from the root (the current one
      last; empty at the root), the listing of the current directory and its
      free-record count. */
  datatype Nav = Nav(path: seq<FileEntry>, content: seq<FileEntry>, freeEntries: int)

  /** Every entry carries a whole 32-byte record. */
  predicate WholeRecords(entries: seq<FileEntry>)
  {
    forall k :: 0 <= k < |entries| ==> |entries[k].record| == RecordSize
  }

  /** The first cluster of the current directory: the root's at the root, otherwise
      that of the last directory entered. */
  function CurrentCluster(path: seq<FileEntry>): nat
    requires WholeRecords(path)
  {
    if path == [] then RootCluster else FirstCluster(path[|path| - 1])
  }

  /** The bytes of whole clusters are whole 32-byte records. */
  lemma ClusterDataIsWholeRecords(m: nat, g: Geometry)
    ensures (m * ClusterBytes(g)) % RecordSize == 0
  {
    var spc := g.sectorsPerCluster;
    assert ClusterBytes(g) == 32 * (16 * spc);
    assert m * ClusterBytes(g) == 32 * (m * (16 * spc));
  }

  /** Reading a directory: its cluster chain, the chain's bytes and their decoding, as
      `getClusterChain`, `readClusters` and `getFileEntries` do in turn. */
  function LoadDirectory(d: Device, g: Geometry, fuel: nat, c: nat): (r: Outcome<Listing>)
    requires Valid(d)
    ensures r.Done? ==> WholeRecords(r.value.entries)
    ensures r.Diverge? <==> ClusterChain(d, g, c, fuel).Diverge?
  {
    match ClusterChain(d, g, c, fuel)
    case Crash => Crash
    case Diverge => Diverge
    case Done(cs) =>
      match ClusterIo.ReadClusters(d, g, cs)
      case Done(data) =>
        ClusterDataIsWholeRecords(|cs|, g);
        EntriesAreWholeRecords(data, Stop(data));
        Done(Decode(data))
      case _ => Crash
  }

  /** The listing and free count are those of the directory the path ends in. */
  ghost predicate Coherent(d: Device, g: Geometry, fuel: nat, nav: Nav)
    requires Valid(d)
  {
    WholeRecords(nav.path) && LoadDirectory(d, g, fuel, CurrentCluster(nav.path)) == Done(Listing(nav.content, nav.freeEntries))
  }

  // ---------------------------------------------------------------------------
  // changeDir and changeDirBack
  // ---------------------------------------------------------------------------

  /** `changeDir(name)`: the first directory entry of the listing answering to `name`
      is pushed on the path, then its directory is read and becomes the listing. A
      failed read leaves the entry pushed and the listing as it was. */
  function ChangeDir(d: Device, g: Geometry, fuel: nat, nav: Nav, name: seq<byte>): (r: (Nav, Outcome<bool>))
    requires Valid(d)
    ensures r.1 == Done(false) <==> FirstMatch(nav.content, name, true).None?
    ensures r.1 == Done(false) ==> r.0 == nav
    ensures FirstMatch(nav.content, name, true).Some? ==>
      r.0.path == nav.path + [nav.content[FirstMatch(nav.content, name, true).value]]
    ensures !r.1.Done? ==> r.0.content == nav.content && r.0.freeEntries == nav.freeEntries
  {
    match FirstMatch(nav.content, name, true)
    case None => (nav, Done(false))
    case Some(j) =>
      var entry := nav.content[j];
      var pushed := nav.(path := nav.path + [entry]);
      match LoadDirectory(d, g, fuel, FirstCluster(entry))
      case Done(l) => (pushed.(content := l.entries, freeEntries := l.free), Done(true))
      case Crash => (pushed, Crash)
      case Diverge => (pushed, Diverge)
  }

  /** `changeDirBack()`: at the root, false and nothing changes. Otherwise the listing is
      cleared, the last directory is popped, and the directory now current (the root
      when the path is empty) is read and becomes the listing. */
  function ChangeDirBack(d: Device, g: Geometry, fuel: nat, nav: Nav): (r: (Nav, Outcome<bool>))
    requires Valid(d) && WholeRecords(nav.path)
    ensures r.1 == Done(false) <==> nav.path == []
    ensures nav.path == [] ==> r.0 == nav
    ensures nav.path != [] ==> r.0.path == nav.path[..|nav.path| - 1]
    ensures nav.path != [] && !r.1.Done? ==> r.0.content == [] && r.0.freeEntries == nav.freeEntries
  {
    if nav.path == [] then (nav, Done(false))
    else
      var up := nav.path[..|nav.path| - 1];
      var cleared := Nav(up, [], nav.freeEntries);
      match LoadDirectory(d, g, fuel, CurrentCluster(up))
      case Done(l) => (Nav(up, l.entries, l.free), Done(true))
      case Crash => (cleared, Crash)
      case Diverge => (cleared, Diverge)
  }

  /** Entering a directory and coming back restores a coherent state exactly. */
  lemma ChangeDirThenBack(d: Device, g: Geometry, fuel: nat, nav: Nav, name: seq<byte>)
    requires Valid(d) && Coherent(d, g, fuel, nav)
    requires ChangeDir(d, g, fuel, nav, name).1 == Done(true)
    ensures WholeRecords(ChangeDir(d, g, fuel, nav, name).0.path)
    ensures ChangeDirBack(d, g, fuel, ChangeDir(d, g, fuel, nav, name).0) == (nav, Done(true))
  {
    var j := FirstMatch(nav.content, name, true).value;
    var nav1 := ChangeDir(d, g, fuel, nav, name).0;
    assert nav1.path[..|nav1.path| - 1] == nav.path;
  }

  /** A successful `changeDir` or `changeDirBack` leaves the listing that of the
      directory the path now ends in. */
  lemma NavigationKeepsCoherence(d: Device, g: Geometry, fuel: nat, nav: Nav, name: seq<byte>)
    requires Valid(d) && WholeRecords(nav.path)
    ensures ChangeDir(d, g, fuel, nav, name).1 == Done(true) ==> Coherent(d, g, fuel, ChangeDir(d, g, fuel, nav, name).0)
    ensures ChangeDirBack(d, g, fuel, nav).1 == Done(true) ==> Coherent(d, g, fuel, ChangeDirBack(d, g, fuel, nav).0)
  {
    var m := FirstMatch(nav.content, name, true);
    if m.Some? {
      var path1 := ChangeDir(d, g, fuel, nav, name).0.path;
      assert path1[|path1| - 1] == nav.content[m.value];
    }
  }

  // ---------------------------------------------------------------------------
  // readFile
  // ---------------------------------------------------------------------------

  /** `Arrays.copyOf(data, n)`: the first n bytes, padded with zeros past the end. */
  function CopyOf(data: seq<byte>, n: nat): (r: seq<byte>)
    ensures |r| == n
    ensures forall i :: 0 <= i < n ==> r[i] == if i < |data| then data[i] else 0
  {
    if n <= |data| then data[..n] else data + seq(n - |data|, i => 0)
  }

  /** `readFile(name)`: the first file entry of the listing answering to `name`, read
      through its cluster chain and cut or padded to its recorded size; none when no
      entry answers. A size that does not fit an `int` is a negative array length. */
  function ReadFile(d: Device, g: Geometry, fuel: nat, content: seq<FileEntry>, name: seq<byte>)
    : (r: Outcome<Option<seq<byte>>>)
    requires Valid(d)
    ensures r == Done(None) <==> FirstMatch(content, name, false).None?
    ensures r.Done? && r.value.Some? ==>
      && FirstMatch(content, name, false).Some?
      && |r.value.value| == Size(content[FirstMatch(content, name, false).value]) < IntLimit
  {
    match FirstMatch(content, name, false)
    case None => Done(None)
    case Some(j) =>
      var entry := content[j];
      match ClusterChain(d, g, FirstCluster(entry), fuel)
      case Crash => Crash
      case Diverge => Diverge
      case Done(cs) =>
        match ClusterIo.ReadClusters(d, g, cs)
        case Done(data) =>
          if Size(entry) < IntLimit then Done(Some(CopyOf(data, Size(entry)))) else Crash
        case _ => Crash
  }

  /** What `readFile` returns for the entry at j whose chain is cs: the chain's bytes
      cut or padded to the entry's size. */
  lemma ReadFileIsCopy(d: Device, g: Geometry, fuel: nat, content: seq<FileEntry>, name: seq<byte>,
                       j: nat, cs: seq<nat>, bytes: seq<byte>)
    requires Valid(d)
    requires FirstMatch(content, name, false) == Some(j)
    requires ClusterChain(d, g, FirstCluster(content[j]), fuel) == Done(cs)
    requires ReadFile(d, g, fuel, content, name) == Done(Some(bytes))
    ensures ClusterIo.ReadClusters(d, g, cs).Done?
    ensures bytes == CopyOf(ClusterIo.ReadClusters(d, g, cs).value, Size(content[j]))
  {
  }

  // ---------------------------------------------------------------------------
  // writeNewFile
  // ---------------------------------------------------------------------------

  /** The number of clusters a file of `length` bytes occupies: the quotient, plus one
      for a partial last cluster. */
  function ClustersFor(length: nat, cb: nat): (n: nat)
    requires cb > 0
  {
    var clusters := length / cb;
    if length % cb != 0 then clusters + 1 else clusters
  }

  /** ClustersFor is the ceiling of length / cb: the fewest whole clusters that hold the
      bytes, zero exactly for no bytes. */
  lemma ClustersForIsCeiling(length: nat, cb: nat)
    requires cb > 0
    ensures length <= ClustersFor(length, cb) * cb
    ensures ClustersFor(length, cb) == 0 <==> length == 0
    ensures ClustersFor(length, cb) > 0 ==> (ClustersFor(length, cb) - 1) * cb < length
  {
    var q, m := length / cb, length % cb;
    assert length == q * cb + m;
    if m != 0 {
      assert (q + 1) * cb == q * cb + cb;
    } else if q > 0 {
      assert (q - 1) * cb == q * cb - cb;
    }
  }

  /** `getFirstFileEntryIndex` on a buffer of whole records: the offset of the first
      free record, or an exception when there is none. */
  function FirstFreeRecord(data: seq<byte>): (r: Outcome<nat>)
    requires |data| % RecordSize == 0
  {
    if Stop(data) < RecordCount(data) then Done(32 * Stop(data)) else Crash
  }

  /** `System.arraycopy(raw, 0, data, index, |raw|)`: raw replaces the bytes from index on. */
  function Splice(data: seq<byte>, index: nat, raw: seq<byte>): (r: seq<byte>)
    requires index + |raw| <= |data|
    ensures |r| == |data| && r[index .. index + |raw|] == raw
    ensures forall i :: 0 <= i < |data| && !(index <= i < index + |raw|) ==> r[i] == data[i]
  {
    data[..index] + raw + data[index + |raw|..]
  }

  /** `writeNewFile(data)`: read the current directory, allocate ceil(|data| / cluster
      bytes) clusters, put the new file's record (rawEntry of the first cluster and the
      size) at the directory's first free record and write the directory back, its
      outcome ignored, then write the data to the allocated clusters. A failed
      allocation returns false before the directory is written. */
  function NewFile(d: Device, g: Geometry, fuel: nat, path: seq<FileEntry>, data: seq<byte>,
                   rawEntry: (nat, nat) -> seq<byte>): (r: (Device, Outcome<bool>))
    requires Valid(d) && Supported(g) && WholeRecords(path)
    ensures Valid(r.0) && r.0.sectors.Keys == d.sectors.Keys && r.0.failing == d.failing
  {
    match ClusterChain(d, g, CurrentCluster(path), fuel)
    case Crash => (d, Crash)
    case Diverge => (d, Diverge)
    case Done(dirChain) =>
      match ClusterIo.ReadClusters(d, g, dirChain)
      case Done(dirData) =>
        ClusterDataIsWholeRecords(|dirChain|, g);
        NewFileInDirectory(d, g, dirChain, dirData, data, rawEntry)
      case _ => (d, Crash)
  }

  /** `writeNewFile` once the directory's chain and bytes are read: the allocation, and
      on success the two writes. */
  function NewFileInDirectory(d: Device, g: Geometry, dirChain: seq<nat>, dirData: seq<byte>, data: seq<byte>,
                              rawEntry: (nat, nat) -> seq<byte>): (r: (Device, Outcome<bool>))
    requires Valid(d) && Supported(g) && |dirData| % RecordSize == 0
    ensures Valid(r.0) && r.0.sectors.Keys == d.sectors.Keys && r.0.failing == d.failing
  {
    var (d1, alloc) := Allocate(d, g, ClustersFor(|data|, ClusterBytes(g)));
    if alloc.Crash? then (d1, Crash)
    else if alloc.Diverge? then (d1, Diverge)
    else if alloc.value.None? then (d1, Done(false))
    else StoreNewFile(d1, g, dirChain, dirData, alloc.value.value, data, rawEntry(alloc.value.value[0], |data|))
  }

  /** `writeNewFile` once the clusters cs are allocated: the record `raw` goes to the
      first free record of the directory bytes, the directory is written back (its
      outcome ignored), then the data is written to cs. No free record, or a record
      running past the buffer, is an exception. */
  function StoreNewFile(d: Device, g: Geometry, dirChain: seq<nat>, dirData: seq<byte>, cs: seq<nat>,
                        data: seq<byte>, raw: seq<byte>): (r: (Device, Outcome<bool>))
    requires Valid(d) && |dirData| % RecordSize == 0
    ensures Valid(r.0) && r.0.sectors.Keys == d.sectors.Keys && r.0.failing == d.failing
  {
    match FirstFreeRecord(dirData)
    case Done(index) =>
      if index + |raw| <= |dirData| then
        var (dirWritten, d2) := ClusterIo.WriteClusters(d, g, dirChain, Splice(dirData, index, raw));
        if !dirWritten.Done? then (d2, dirWritten)
        else
          var (fileWritten, d3) := ClusterIo.WriteClusters(d2, g, cs, data);
          (d3, fileWritten)
      else (d, Crash)
    case _ => (d, Crash)
  }

  /** With fewer free FAT entries than the file needs, `writeNewFile` writes nothing and
      does not report success; it returns false once the directory has been read. */
  lemma NoRoomWritesNothing(d: Device, g: Geometry, fuel: nat, path: seq<FileEntry>, data: seq<byte>,
                            rawEntry: (nat, nat) -> seq<byte>)
    requires Valid(d) && Supported(g) && WholeRecords(path) && FatReadable(d, g)
    requires |Zeros(d, g, ScannedClusters(g))| < ClustersFor(|data|, ClusterBytes(g))
    ensures NewFile(d, g, fuel, path, data, rawEntry).0 == d
    ensures NewFile(d, g, fuel, path, data, rawEntry).1 != Done(true)
    ensures ClusterChain(d, g, CurrentCluster(path), fuel).Done?
            && ClusterIo.ReadClusters(d, g, ClusterChain(d, g, CurrentCluster(path), fuel).value).Done?
            ==> NewFile(d, g, fuel, path, data, rawEntry).1 == Done(false)
  {
    TooFewFreeWritesNothing(d, g, ClustersFor(|data|, ClusterBytes(g)));
  }

  /** An empty file is never written: no clusters are requested, so the allocation
      fails and nothing on the device changes. */
  lemma EmptyFileIsNeverWritten(d: Device, g: Geometry, fuel: nat, path: seq<FileEntry>,
                                rawEntry: (nat, nat) -> seq<byte>)
    requires Valid(d) && Supported(g) && WholeRecords(path)
    ensures NewFile(d, g, fuel, path, [], rawEntry).0 == d
    ensures NewFile(d, g, fuel, path, [], rawEntry).1 != Done(true)
  {
    assert ClustersFor(0, ClusterBytes(g)) == 0;
    ZeroRequestWritesNothing(d, g);
  }

  /** A `writeNewFile` that reports true has allocated the first free clusters in
      ascending order and left chunk j of the data in the j-th of them, when the FAT's
      two reserved entries are in use (so that no data cluster number below 2 is
      allocated). */
  lemma NewFileStoresData(d: Device, g: Geometry, fuel: nat, path: seq<FileEntry>, data: seq<byte>,
                          rawEntry: (nat, nat) -> seq<byte>)
    requires Valid(d) && Supported(g) && WholeRecords(path)
    requires FatValue(d, g, 0) != Some(0) && FatValue(d, g, 1) != Some(0)
    requires NewFile(d, g, fuel, path, data, rawEntry).1 == Done(true)
    ensures var alloc := Allocate(d, g, ClustersFor(|data|, ClusterBytes(g))).1;
      && alloc.Done? && alloc.value.Some?
      && (forall a, b :: 0 <= a < b < |alloc.value.value| ==> alloc.value.value[a] < alloc.value.value[b])
      && forall j :: 0 <= j < |alloc.value.value| ==>
           ClusterIo.HoldsChunk(NewFile(d, g, fuel, path, data, rawEntry).0, g, alloc.value.value[j], data, j)
  {
    var dirChain := ClusterChain(d, g, CurrentCluster(path), fuel).value;
    var dirData := ClusterIo.ReadClusters(d, g, dirChain).value;
    ClusterDataIsWholeRecords(|dirChain|, g);
    assert NewFile(d, g, fuel, path, data, rawEntry) == NewFileInDirectory(d, g, dirChain, dirData, data, rawEntry);
    InDirectoryStoresData(d, g, dirChain, dirData, data, rawEntry);
  }

  lemma InDirectoryStoresData(d: Device, g: Geometry, dirChain: seq<nat>, dirData: seq<byte>, data: seq<byte>,
                              rawEntry: (nat, nat) -> seq<byte>)
    requires Valid(d) && Supported(g) && |dirData| % RecordSize == 0
    requires FatValue(d, g, 0) != Some(0) && FatValue(d, g, 1) != Some(0)
    requires NewFileInDirectory(d, g, dirChain, dirData, data, rawEntry).1 == Done(true)
    ensures var alloc := Allocate(d, g, ClustersFor(|data|, ClusterBytes(g))).1;
      && alloc.Done? && alloc.value.Some?
      && (forall a, b :: 0 <= a < b < |alloc.value.value| ==> alloc.value.value[a] < alloc.value.value[b])
      && forall j :: 0 <= j < |alloc.value.value| ==>
           ClusterIo.HoldsChunk(NewFileInDirectory(d, g, dirChain, dirData, data, rawEntry).0, g, alloc.value.value[j], data, j)
  {
    var n := ClustersFor(|data|, ClusterBytes(g));
    var (d1, alloc) := Allocate(d, g, n);
    var cs := alloc.value.value;
    AllocatedAreDataClusters(d, g, n);
    StoreNewFileStoresData(d1, g, dirChain, dirData, cs, data, rawEntry(cs[0], |data|));
  }

  lemma StoreNewFileStoresData(d: Device, g: Geometry, dirChain: seq<nat>, dirData: seq<byte>, cs: seq<nat>,
                               data: seq<byte>, raw: seq<byte>)
    requires Valid(d) && g.sectorsPerCluster >= 1 && |dirData| % RecordSize == 0
    requires forall j :: 0 <= j < |cs| ==> cs[j] >= 2
    requires forall a, b :: 0 <= a < b < |cs| ==> cs[a] < cs[b]
    requires StoreNewFile(d, g, dirChain, dirData, cs, data, raw).1 == Done(true)
    ensures forall j :: 0 <= j < |cs| ==> ClusterIo.HoldsChunk(StoreNewFile(d, g, dirChain, dirData, cs, data, raw).0, g, cs[j], data, j)
  {
    var index := FirstFreeRecord(dirData).value;
    var d2 := ClusterIo.WriteClusters(d, g, dirChain, Splice(dirData, index, raw)).1;
    ClusterIo.WriteFromSucceeded(d2, g, cs, data, 0, ClusterIo.ZeroBuffer(ClusterBytes(g)));
  }

  /** The directory half of `writeNewFile`: when the directory write reports true, each
      cluster j of the directory's chain holds chunk j of the directory bytes with the
      new record at the first free record, and the data write that follows leaves it so
      when no allocated cluster belongs to the directory. */
  lemma StoreNewFileWritesRecord(d: Device, g: Geometry, dirChain: seq<nat>, dirData: seq<byte>, cs: seq<nat>,
                                 data: seq<byte>, raw: seq<byte>)
    requires Valid(d) && g.sectorsPerCluster >= 1 && |dirData| % RecordSize == 0
    requires Stop(dirData) < RecordCount(dirData) && 32 * Stop(dirData) + |raw| <= |dirData|
    requires forall j :: 0 <= j < |dirChain| ==> dirChain[j] >= 2
    requires forall a, b :: 0 <= a < b < |dirChain| ==> dirChain[a] != dirChain[b]
    requires forall j :: 0 <= j < |cs| ==> cs[j] >= 2
    requires forall a, b :: 0 <= a < |dirChain| && 0 <= b < |cs| ==> dirChain[a] != cs[b]
    requires ClusterIo.WriteClusters(d, g, dirChain, Splice(dirData, 32 * Stop(dirData), raw)).0 == Done(true)
    ensures forall j :: 0 <= j < |dirChain| ==>
      ClusterIo.HoldsChunk(StoreNewFile(d, g, dirChain, dirData, cs, data, raw).0, g, dirChain[j],
                           Splice(dirData, 32 * Stop(dirData), raw), j)
  {
    var dirBytes := Splice(dirData, 32 * Stop(dirData), raw);
    var buf := ClusterIo.ZeroBuffer(ClusterBytes(g));
    var d2 := ClusterIo.WriteClusters(d, g, dirChain, dirBytes).1;
    var d3 := ClusterIo.WriteClusters(d2, g, cs, data).1;
    assert StoreNewFile(d, g, dirChain, dirData, cs, data, raw).0 == d3;
    ClusterIo.WriteFromSucceeded(d, g, dirChain, dirBytes, 0, buf);
    forall j | 0 <= j < |dirChain|
      ensures ClusterIo.HoldsChunk(d3, g, dirChain[j], dirBytes, j)
    {
      assert cs[0..] == cs;
      ClusterIo.WriteFromFrame(d2, g, cs, data, 0, buf, dirChain[j]);
      ClusterIo.HoldsChunkTransfer(d2, d3, g, dirChain[j], dirBytes, j);
    }
  }

  // ---------------------------------------------------------------------------
  // mount
  // ---------------------------------------------------------------------------

  /** `mount(index)` over the unit-ready status and the partition table parsed from
      sector 0: not ready is false; an unreadable sector 0 is a null table (an
      exception); an index past the table is false, a negative one an exception, and so
      is the largest `int`, whose `index + 1` wraps negative and lets the lookup run off
      the table; otherwise the partition's geometry is taken from its first sector (unreadable: an
      exception) and the root directory becomes the listing. The path is left as it
      was. */
  function Mount(d: Device, fuel: nat, unitReady: bool, partitions: seq<Geometry>, index: int, g: Geometry, nav: Nav)
    : (r: (Geometry, Nav, Outcome<bool>))
    requires Valid(d) && IntMin <= index < IntLimit
    ensures r.2 == Done(false) <==> !unitReady || (0 in d.sectors && |partitions| < index + 1 && index < IntLimit - 1)
    ensures unitReady && 0 in d.sectors && index == IntLimit - 1 && |partitions| < IntLimit ==> r.2 == Crash
    ensures r.2 != Done(true) ==> r.1 == nav
    ensures r.2 == Done(true) ==>
      && 0 <= index < |partitions| && r.0 == partitions[index] && r.1.path == nav.path
      && LoadDirectory(d, r.0, fuel, RootCluster) == Done(Listing(r.1.content, r.1.freeEntries))
  {
    if !unitReady then (g, nav, Done(false))
    else if 0 !in d.sectors then (g, nav, Crash)
    else if |partitions| >= AddInt(index, 1) then
      if index < 0 || |partitions| <= index then (g, nav, Crash)
      else
        var p := partitions[index];
        if p.partitionStart !in d.sectors then (g, nav, Crash)
        else
          match LoadDirectory(d, p, fuel, RootCluster)
          case Done(l) => (p, nav.(content := l.entries, freeEntries := l.free), Done(true))
          case Crash => (p, nav, Crash)
          case Diverge => (p, nav, Diverge)
    else (g, nav, Done(false))
  }

  /** Mounting from the root leaves a coherent state: the listing is the root's. */
  lemma MountIsCoherent(d: Device, fuel: nat, unitReady: bool, partitions: seq<Geometry>, index: int, g: Geometry, nav: Nav)
    requires Valid(d) && IntMin <= index < IntLimit && nav.path == []
    requires Mount(d, fuel, unitReady, partitions, index, g, nav).2 == Done(true)
    ensures Coherent(d, Mount(d, fuel, unitReady, partitions, index, g, nav).0, fuel, Mount(d, fuel, unitReady, partitions, index, g, nav).1)
  {
  }
}
