/** Reading and writing whole data clusters: what `readClusters` and `writeClusters`
    produce, stated over the device. */
module ClusterIo {
  import opened Bytes
  import opened FatGeometry
  import opened BlockDevice

  /** The bytes of cluster c, read as one multi-sector request. */
  function ReadCluster(d: Device, g: Geometry, c: nat): (r: Option<seq<byte>>)
    requires Valid(d)
    ensures r.Some? ==> |r.value| == ClusterBytes(g)
  {
    ReadBytes(d, ClusterLba(g, c), g.sectorsPerCluster)
  }

  /** `readClusters`: the clusters' bytes, concatenated in chain order; a failed read is
      dereferenced as null by the engine, a crash. */
  function ReadClusters(d: Device, g: Geometry, cs: seq<nat>): (r: Outcome<seq<byte>>)
    requires Valid(d)
    ensures r.Diverge? == false
    ensures r.Done? ==> |r.value| == |cs| * ClusterBytes(g)
    decreases |cs|
  {
    if cs == [] then Done([])
    else match ReadClusters(d, g, cs[..|cs| - 1])
      case Done(prefix) =>
        (match ReadCluster(d, g, cs[|cs| - 1])
         case Some(b) => Done(prefix + b)
         case None => Crash)
      case _ => Crash
  }

  lemma MulMono(a: nat, b: nat, c: nat)
    requires a <= b
    ensures a * c <= b * c
  {
  }

  /** A read succeeds exactly when every cluster of the chain can be read. */
  lemma {:induction false} ReadClustersSucceeds(d: Device, g: Geometry, cs: seq<nat>)
    requires Valid(d)
    ensures ReadClusters(d, g, cs).Done? <==> forall c :: c in cs ==> ReadCluster(d, g, c).Some?
    decreases |cs|
  {
    if cs != [] {
      var init := cs[..|cs| - 1];
      ReadClustersSucceeds(d, g, init);
      assert forall c :: c in cs <==> c in init || c == cs[|cs| - 1];
    }
  }

  /** Reading one more cluster of the list: its bytes are appended, or the whole read
      fails when it cannot be read. */
  lemma ReadClustersStep(d: Device, g: Geometry, cs: seq<nat>, k: nat)
    requires Valid(d) && k < |cs| && ReadClusters(d, g, cs[..k]).Done?
    ensures ReadCluster(d, g, cs[k]).Some? ==>
      ReadClusters(d, g, cs[..k + 1]) == Done(ReadClusters(d, g, cs[..k]).value + ReadCluster(d, g, cs[k]).value)
    ensures ReadCluster(d, g, cs[k]).None? ==> ReadClusters(d, g, cs) == Crash
  {
    assert cs[..k + 1][..k] == cs[..k];
    if ReadCluster(d, g, cs[k]).None? {
      ReadClustersSucceeds(d, g, cs);
      assert cs[k] in cs;
    }
  }

  lemma SliceOfConcat(a: seq<byte>, b: seq<byte>, i: nat, j: nat)
    requires i <= j <= |a|
    ensures (a + b)[i..j] == a[i..j]
    ensures (a + b)[|a|..] == b
  {
  }

  /** A successful read places cluster k's contents at offset k * clusterBytes. */
  lemma {:induction false} ReadClustersLayout(d: Device, g: Geometry, cs: seq<nat>, k: nat)
    requires Valid(d)
    requires ReadClusters(d, g, cs).Done? && k < |cs|
    ensures ReadCluster(d, g, cs[k]).Some?
    ensures (k + 1) * ClusterBytes(g) <= |ReadClusters(d, g, cs).value|
    ensures ReadClusters(d, g, cs).value[k * ClusterBytes(g) .. (k + 1) * ClusterBytes(g)]
              == ReadCluster(d, g, cs[k]).value
    decreases |cs|
  {
    var cb := ClusterBytes(g);
    var init := cs[..|cs| - 1];
    var r := ReadClusters(d, g, cs).value;
    var prefix := ReadClusters(d, g, init).value;
    var last := ReadCluster(d, g, cs[|cs| - 1]).value;
    assert r == prefix + last;
    assert |prefix| == (|cs| - 1) * cb;
    MulMono(k + 1, |cs|, cb);
    if k < |cs| - 1 {
      ReadClustersLayout(d, g, init, k);
      assert cs[k] == init[k];
      MulMono(k + 1, |cs| - 1, cb);
      MulMono(0, k, cb);
      MulMono(k, k + 1, cb);
      SliceOfConcat(prefix, last, k * cb, (k + 1) * cb);
    } else {
      assert k * cb == |prefix|;
      assert (k + 1) * cb == |prefix| + cb;
      SliceOfConcat(prefix, last, 0, 0);
      assert r[k * cb .. (k + 1) * cb] == r[|prefix|..];
    }
  }

  /** The buffer written to cluster k: `writeClusters` reuses one cluster-sized buffer, so
      a short last chunk carries the previous chunk's trailing bytes. A chunk that would
      start past the end of the data is an index error in the engine (None). */
  function Chunk(data: seq<byte>, buf: seq<byte>, k: nat, cb: nat): (r: Option<seq<byte>>)
    requires |buf| == cb
    ensures r.Some? <==> k * cb <= |data|
    ensures r.Some? ==> |r.value| == cb
    ensures r.Some? && k * cb + cb <= |data| ==> r.value == data[k * cb .. k * cb + cb]
    ensures r.Some? && |data| < k * cb + cb ==>
      r.value[..|data| - k * cb] == data[k * cb ..] && r.value[|data| - k * cb ..] == buf[|data| - k * cb ..]
  {
    if k * cb + cb <= |data| then Some(data[k * cb .. k * cb + cb])
    else if k * cb <= |data| then Some(data[k * cb ..] + buf[|data| - k * cb ..])
    else None
  }

  function ZeroBuffer(n: nat): (r: seq<byte>)
    ensures |r| == n && forall i :: 0 <= i < n ==> r[i] == 0
  {
    seq(n, i => 0)
  }

  /** `writeClusters` from cluster k on, with the buffer as the previous step left it:
      the outcome and the device afterwards. The first failed write ends it with false. */
  function WriteFrom(d: Device, g: Geometry, cs: seq<nat>, data: seq<byte>, k: nat, buf: seq<byte>)
    : (r: (Outcome<bool>, Device))
    requires Valid(d) && k <= |cs| && |buf| == ClusterBytes(g)
    ensures Valid(r.1) && r.1.sectors.Keys == d.sectors.Keys && r.1.failing == d.failing
    decreases |cs| - k
  {
    var cb := ClusterBytes(g);
    if k == |cs| then (Done(true), d)
    else match Chunk(data, buf, k, cb)
      case None => (Crash, d)
      case Some(b) =>
        assert |b| % SectorSize == 0 by { assert |b| == g.sectorsPerCluster * SectorSize; }
        var (d1, ok) := WriteBytes(d, ClusterLba(g, cs[k]), b);
        if !ok then (Done(false), d1) else WriteFrom(d1, g, cs, data, k + 1, b)
  }

  /** One step of the write, whatever its outcome: past the data's end it is an
      exception; otherwise chunk k is written to cluster cs[k], and a failed write ends
      it with false. */
  lemma WriteFromUnfold(d: Device, g: Geometry, cs: seq<nat>, data: seq<byte>, k: nat, buf: seq<byte>)
    requires Valid(d) && k < |cs| && |buf| == ClusterBytes(g)
    ensures Chunk(data, buf, k, ClusterBytes(g)).None? ==> WriteFrom(d, g, cs, data, k, buf) == (Crash, d)
    ensures Chunk(data, buf, k, ClusterBytes(g)).Some? ==>
      var b := Chunk(data, buf, k, ClusterBytes(g)).value;
      && |b| % SectorSize == 0
      && WriteFrom(d, g, cs, data, k, buf) ==
           if WriteBytes(d, ClusterLba(g, cs[k]), b).1
           then WriteFrom(WriteBytes(d, ClusterLba(g, cs[k]), b).0, g, cs, data, k + 1, b)
           else (Done(false), WriteBytes(d, ClusterLba(g, cs[k]), b).0)
  {
    if Chunk(data, buf, k, ClusterBytes(g)).Some? {
      var b := Chunk(data, buf, k, ClusterBytes(g)).value;
      assert |b| % SectorSize == 0 by { assert |b| == g.sectorsPerCluster * SectorSize; }
    }
  }

  /** `writeClusters(cs, data)`. */
  function WriteClusters(d: Device, g: Geometry, cs: seq<nat>, data: seq<byte>): (r: (Outcome<bool>, Device))
    requires Valid(d)
    ensures Valid(r.1) && r.1.sectors.Keys == d.sectors.Keys && r.1.failing == d.failing
  {
    WriteFrom(d, g, cs, data, 0, ZeroBuffer(ClusterBytes(g)))
  }

  /** The sectors of cluster c accept writes. */
  predicate ClusterWritable(d: Device, g: Geometry, c: nat)
  {
    Writable(d, ClusterLba(g, c), g.sectorsPerCluster)
  }

  /** A run whose sectors hold the consecutive sectors of b reads back as b. */
  lemma {:induction false} ReadBackRun(d: Device, lba: int, count: nat, b: seq<byte>)
    requires Valid(d) && |b| == count * SectorSize
    requires forall x :: lba <= x < lba + count ==> x in d.sectors && d.sectors[x] == SectorOf(b, x - lba)
    ensures ReadBytes(d, lba, count) == Some(b)
    decreases count
  {
    if count > 0 {
      var init := b[..(count - 1) * SectorSize];
      forall x | lba <= x < lba + count - 1
        ensures d.sectors[x] == SectorOf(init, x - lba)
      {
        var j := x - lba;
        assert (j + 1) * SectorSize <= (count - 1) * SectorSize;
        assert SectorOf(init, j) == SectorOf(b, j);
      }
      ReadBackRun(d, lba, count - 1, init);
      assert b == init + SectorOf(b, count - 1);
    }
  }

  /** How many leading bytes of chunk j come from the data. */
  function ChunkDataLength(dataLength: nat, j: nat, cb: nat): nat
  {
    if j * cb + cb <= dataLength then cb
    else if j * cb <= dataLength then dataLength - j * cb
    else 0
  }

  /** Cluster c of the device holds, at its start, chunk j's bytes from the data. */
  ghost predicate HoldsChunk(d: Device, g: Geometry, c: nat, data: seq<byte>, j: nat)
    requires Valid(d)
  {
    var cb := ClusterBytes(g);
    var m := ChunkDataLength(|data|, j, cb);
    && ReadCluster(d, g, c).Some?
    && j * cb + m <= |data|
    && ReadCluster(d, g, c).value[..m] == data[j * cb .. j * cb + m]
  }

  /** The leading bytes of chunk j are the data's bytes from j * clusterBytes on. */
  lemma ChunkPrefix(data: seq<byte>, buf: seq<byte>, j: nat, cb: nat)
    requires |buf| == cb && j * cb <= |data|
    ensures j * cb + ChunkDataLength(|data|, j, cb) <= |data|
    ensures Chunk(data, buf, j, cb).value[..ChunkDataLength(|data|, j, cb)]
              == data[j * cb .. j * cb + ChunkDataLength(|data|, j, cb)]
  {
  }

  /** Writing chunk j to a writable cluster succeeds and makes the cluster hold it. */
  lemma WriteChunkEffect(d: Device, g: Geometry, c: nat, data: seq<byte>, buf: seq<byte>, j: nat)
    requires Valid(d) && g.sectorsPerCluster >= 1
    requires |buf| == ClusterBytes(g) && j * ClusterBytes(g) <= |data|
    requires ClusterWritable(d, g, c)
    ensures |Chunk(data, buf, j, ClusterBytes(g)).value| % SectorSize == 0
    ensures WriteBytes(d, ClusterLba(g, c), Chunk(data, buf, j, ClusterBytes(g)).value).1
    ensures HoldsChunk(WriteBytes(d, ClusterLba(g, c), Chunk(data, buf, j, ClusterBytes(g)).value).0, g, c, data, j)
  {
    var cb := ClusterBytes(g);
    var b := Chunk(data, buf, j, cb).value;
    var spc := g.sectorsPerCluster;
    assert |b| == spc * SectorSize;
    assert |b| / SectorSize == spc;
    var d1 := WriteBytes(d, ClusterLba(g, c), b).0;
    ReadBackRun(d1, ClusterLba(g, c), spc, b);
    ChunkPrefix(data, buf, j, cb);
  }

  /** The write reported true and every cluster from k on holds its chunk. */
  ghost predicate StoredAll(g: Geometry, cs: seq<nat>, data: seq<byte>, k: nat, r: (Outcome<bool>, Device))
  {
    && r.0 == Done(true)
    && Valid(r.1)
    && forall j :: k <= j < |cs| ==> HoldsChunk(r.1, g, cs[j], data, j)
  }

  /** Whatever its outcome, `writeClusters` leaves the bytes of every cluster outside
      the list as they were (clusters numbered 2 or more). */
  lemma {:induction false} WriteFromFrame(d: Device, g: Geometry, cs: seq<nat>, data: seq<byte>, k: nat, buf: seq<byte>, c: nat)
    requires Valid(d) && k <= |cs| && |buf| == ClusterBytes(g) && g.sectorsPerCluster >= 1
    requires forall j :: 0 <= j < |cs| ==> cs[j] >= 2
    requires c >= 2 && c !in cs[k..]
    ensures ReadCluster(WriteFrom(d, g, cs, data, k, buf).1, g, c) == ReadCluster(d, g, c)
    decreases |cs| - k
  {
    var cb := ClusterBytes(g);
    if k < |cs| && Chunk(data, buf, k, cb).Some? {
      var b := Chunk(data, buf, k, cb).value;
      assert c != cs[k] && c !in cs[k + 1..];
      RunUntouched(d, g, cs[k], c, b);
      var (d1, ok) := WriteBytes(d, ClusterLba(g, cs[k]), b);
      if ok {
        WriteFromFrame(d1, g, cs, data, k + 1, b, c);
      }
    }
  }

  /** One step of the write: chunk k goes to writable cluster cs[k], the write succeeds,
      the cluster then holds the chunk, and the rest proceeds from there with that chunk
      as the buffer and the same clusters writable. */
  lemma WriteFromStep(d: Device, g: Geometry, cs: seq<nat>, data: seq<byte>, k: nat, buf: seq<byte>)
    requires Valid(d) && k < |cs| && |buf| == ClusterBytes(g) && g.sectorsPerCluster >= 1
    requires k * ClusterBytes(g) <= |data| && ClusterWritable(d, g, cs[k])
    ensures |Chunk(data, buf, k, ClusterBytes(g)).value| == ClusterBytes(g)
    ensures |Chunk(data, buf, k, ClusterBytes(g)).value| % SectorSize == 0
    ensures var d1 := WriteBytes(d, ClusterLba(g, cs[k]), Chunk(data, buf, k, ClusterBytes(g)).value).0;
      && HoldsChunk(d1, g, cs[k], data, k)
      && WriteFrom(d, g, cs, data, k, buf) == WriteFrom(d1, g, cs, data, k + 1, Chunk(data, buf, k, ClusterBytes(g)).value)
      && (forall c :: ClusterWritable(d1, g, c) == ClusterWritable(d, g, c))
  {
    WriteChunkEffect(d, g, cs[k], data, buf, k);
  }

  /** Extending what is stored by one cluster that the later writes leave alone. */
  lemma StoredAllExtend(d1: Device, g: Geometry, cs: seq<nat>, data: seq<byte>, k: nat, r: (Outcome<bool>, Device))
    requires Valid(d1) && k < |cs|
    requires StoredAll(g, cs, data, k + 1, r)
    requires HoldsChunk(d1, g, cs[k], data, k) && ReadCluster(r.1, g, cs[k]) == ReadCluster(d1, g, cs[k])
    ensures StoredAll(g, cs, data, k, r)
  {
    HoldsChunkTransfer(d1, r.1, g, cs[k], data, k);
  }

  /** The conditions under which the write from cluster k on stores everything: clusters
      numbered 2 or more and distinct, those from k on writable, and no chunk starting
      past the data's end. */
  ghost predicate StoreReady(d: Device, g: Geometry, cs: seq<nat>, data: seq<byte>, k: nat)
  {
    && Valid(d) && k <= |cs| && g.sectorsPerCluster >= 1
    && (forall j :: 0 <= j < |cs| ==> cs[j] >= 2)
    && (forall a, b :: 0 <= a < b < |cs| ==> cs[a] != cs[b])
    && (forall j :: k <= j < |cs| ==> ClusterWritable(d, g, cs[j]))
    && (k == |cs| || (|cs| - 1) * ClusterBytes(g) <= |data|)
  }

  /** After one step (chunk b written, leaving device d1) the conditions hold from the
      next cluster on. */
  lemma StoreReadyStep(d: Device, g: Geometry, cs: seq<nat>, data: seq<byte>, k: nat, buf: seq<byte>)
    returns (b: seq<byte>, d1: Device)
    requires StoreReady(d, g, cs, data, k) && k < |cs| && |buf| == ClusterBytes(g)
    ensures |b| == ClusterBytes(g)
    ensures StoreReady(d1, g, cs, data, k + 1)
    ensures WriteFrom(d, g, cs, data, k, buf) == WriteFrom(d1, g, cs, data, k + 1, b)
  {
    MulMono(k, |cs| - 1, ClusterBytes(g));
    WriteFromStep(d, g, cs, data, k, buf);
    b := Chunk(data, buf, k, ClusterBytes(g)).value;
    d1 := WriteBytes(d, ClusterLba(g, cs[k]), b).0;
  }

  /** When every cluster is writable and no chunk starts past the data's end, every
      write succeeds and the call reports true. */
  lemma {:induction false} WriteFromReportsTrue(d: Device, g: Geometry, cs: seq<nat>, data: seq<byte>, k: nat, buf: seq<byte>)
    requires StoreReady(d, g, cs, data, k) && |buf| == ClusterBytes(g)
    ensures WriteFrom(d, g, cs, data, k, buf).0 == Done(true)
    decreases |cs| - k
  {
    if k < |cs| {
      var b, d1 := StoreReadyStep(d, g, cs, data, k, buf);
      WriteFromReportsTrue(d1, g, cs, data, k + 1, b);
    }
  }

  /** Under the same conditions the write reports true and each cluster cs[j] then holds
      chunk j. */
  lemma WriteFromStores(d: Device, g: Geometry, cs: seq<nat>, data: seq<byte>, k: nat, buf: seq<byte>)
    requires StoreReady(d, g, cs, data, k) && |buf| == ClusterBytes(g)
    ensures StoredAll(g, cs, data, k, WriteFrom(d, g, cs, data, k, buf))
  {
    WriteFromReportsTrue(d, g, cs, data, k, buf);
    WriteFromSucceeded(d, g, cs, data, k, buf);
  }

  /** Conversely, a write that reports true stored every chunk: each write succeeded,
      so each cluster from k on was writable and holds its chunk, which the later writes
      to other clusters leave alone. Clusters are numbered 2 or more and distinct. */
  lemma {:induction false} WriteFromSucceeded(d: Device, g: Geometry, cs: seq<nat>, data: seq<byte>, k: nat, buf: seq<byte>)
    requires Valid(d) && k <= |cs| && |buf| == ClusterBytes(g) && g.sectorsPerCluster >= 1
    requires forall j :: 0 <= j < |cs| ==> cs[j] >= 2
    requires forall a, b :: 0 <= a < b < |cs| ==> cs[a] != cs[b]
    requires WriteFrom(d, g, cs, data, k, buf).0 == Done(true)
    ensures StoredAll(g, cs, data, k, WriteFrom(d, g, cs, data, k, buf))
    decreases |cs| - k
  {
    if k < |cs| {
      var cb := ClusterBytes(g);
      WriteFromUnfold(d, g, cs, data, k, buf);
      var b := Chunk(data, buf, k, cb).value;
      assert |b| / SectorSize == g.sectorsPerCluster by {
        assert |b| == g.sectorsPerCluster * SectorSize;
      }
      var d1 := WriteBytes(d, ClusterLba(g, cs[k]), b).0;
      assert WriteBytes(d, ClusterLba(g, cs[k]), b).1;
      WriteChunkEffect(d, g, cs[k], data, buf, k);
      WriteFromSucceeded(d1, g, cs, data, k + 1, b);
      assert cs[k] !in cs[k + 1..];
      WriteFromFrame(d1, g, cs, data, k + 1, b, cs[k]);
      StoredAllExtend(d1, g, cs, data, k, WriteFrom(d1, g, cs, data, k + 1, b));
    }
  }

  lemma HoldsChunkTransfer(d1: Device, d2: Device, g: Geometry, c: nat, data: seq<byte>, j: nat)
    requires Valid(d1) && Valid(d2)
    requires HoldsChunk(d1, g, c, data, j) && ReadCluster(d2, g, c) == ReadCluster(d1, g, c)
    ensures HoldsChunk(d2, g, c, data, j)
  {
  }

  /** Writing chunk b to cluster c leaves the bytes of another cluster d as they were,
      when d's run does not meet c's. */
  lemma RunUntouched(dev: Device, g: Geometry, c: nat, other: nat, b: seq<byte>)
    requires Valid(dev) && g.sectorsPerCluster >= 1 && c >= 2 && c != other
    requires |b| == ClusterBytes(g)
    ensures |b| % SectorSize == 0
    ensures other >= 2 ==> ReadCluster(WriteBytes(dev, ClusterLba(g, c), b).0, g, other) == ReadCluster(dev, g, other)
  {
    assert |b| == g.sectorsPerCluster * SectorSize;
    if other >= 2 {
      var d1 := WriteBytes(dev, ClusterLba(g, c), b).0;
      if c < other { ClusterRunsOrdered(g, c, other); } else { ClusterRunsOrdered(g, other, c); }
      RunsAgree(dev, d1, ClusterLba(g, other), g.sectorsPerCluster);
    }
  }

  /** Two devices that agree on a run read it alike. */
  lemma {:induction false} RunsAgree(d1: Device, d2: Device, lba: int, count: nat)
    requires Valid(d1) && Valid(d2) && d1.sectors.Keys == d2.sectors.Keys
    requires forall x :: lba <= x < lba + count && x in d1.sectors ==> d1.sectors[x] == d2.sectors[x]
    ensures ReadBytes(d1, lba, count) == ReadBytes(d2, lba, count)
    decreases count
  {
    if count > 0 {
      RunsAgree(d1, d2, lba, count - 1);
    }
  }
}
