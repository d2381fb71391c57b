/** The file allocation table as the engine sees it through the device: 4-byte
    little-endian entries, 128 to a sector, starting at the first FAT sector. This
    module states what walking a chain and allocating a chain mean; the engine's
    loops are proved against these functions in module FatEngine. */
module FatTable {
  import opened Bytes
  import opened FatGeometry
  import opened BlockDevice

  /** The value of slot i (0..127) of a FAT sector. */
  function SlotValue(sec: seq<byte>, i: nat): nat
    requires |sec| == SectorSize && i < EntriesPerSector
  {
    Le32At(sec, 4 * i)
  }

  /** The FAT entry of cluster c, or None when its sector cannot be read. */
  function FatValue(d: Device, g: Geometry, c: nat): Option<nat>
    requires Valid(d)
  {
    var lba := EntryLba(g, c);
    if lba in d.sectors then Some(SlotValue(d.sectors[lba], EntrySectorIndex(c))) else None
  }

  // ---------------------------------------------------------------------------
  // Walking a chain (getClusterChain)
  // ---------------------------------------------------------------------------

  function Prepend(p: seq<nat>, o: Outcome<seq<nat>>): Outcome<seq<nat>>
  {
    match o
    case Done(r) => Done(p + r)
    case Crash => Crash
    case Diverge => Diverge
  }

  lemma PrependJoin(a: seq<nat>, b: seq<nat>, o: Outcome<seq<nat>>)
    ensures Prepend(a, Prepend(b, o)) == Prepend(a + b, o)
  {
    if o.Done? {
      assert a + (b + o.value) == (a + b) + o.value;
    }
  }

  /** The clusters that follow c: each is the FAT value of its predecessor, and the walk
      stops when a value equals the end-of-chain marker exactly. `fuel` bounds the number
      of FAT reads; running out stands for the engine's endless loop on a cyclic FAT. */
  function Walk(d: Device, g: Geometry, c: nat, fuel: nat): Outcome<seq<nat>>
    requires Valid(d)
    decreases fuel
  {
    if fuel == 0 then Diverge
    else match FatValue(d, g, c)
      case None => Crash
      case Some(v) => if v == EndOfChain then Done([]) else Prepend([v], Walk(d, g, v, fuel - 1))
  }

  /** The chain that starts at c, c included. */
  function ClusterChain(d: Device, g: Geometry, c: nat, fuel: nat): Outcome<seq<nat>>
    requires Valid(d)
  {
    Prepend([c], Walk(d, g, c, fuel))
  }

  /** ch is a chain on the FAT: every element's entry names the next one, no later element
      is the marker, and the last element's entry is the marker. */
  ghost predicate Linked(d: Device, g: Geometry, ch: seq<nat>)
    requires Valid(d)
  {
    && |ch| > 0
    && (forall j, k :: 0 <= j && k == j + 1 && k < |ch| ==> FatValue(d, g, ch[j]) == Some(ch[k]) && ch[k] != EndOfChain)
    && FatValue(d, g, ch[|ch| - 1]) == Some(EndOfChain)
  }

  /** Whatever the walk returns starts with the given cluster and is a chain on the FAT. */
  lemma {:induction false} WalkedChainIsLinked(d: Device, g: Geometry, c: nat, fuel: nat)
    requires Valid(d)
    requires ClusterChain(d, g, c, fuel).Done?
    ensures ClusterChain(d, g, c, fuel).value[0] == c
    ensures Linked(d, g, ClusterChain(d, g, c, fuel).value)
    ensures |ClusterChain(d, g, c, fuel).value| <= fuel
    decreases fuel
  {
    var ch := ClusterChain(d, g, c, fuel).value;
    var v := FatValue(d, g, c).value;
    if v != EndOfChain {
      WalkedChainIsLinked(d, g, v, fuel - 1);
      var rest := ClusterChain(d, g, v, fuel - 1).value;
      assert ch == [c] + rest;
      forall j, k | 0 <= j && k == j + 1 && k < |ch|
        ensures FatValue(d, g, ch[j]) == Some(ch[k]) && ch[k] != EndOfChain
      {
        if j > 0 {
          assert ch[j] == rest[j - 1] && ch[k] == rest[k - 1];
        }
      }
    }
  }

  /** Conversely, a chain on the FAT is exactly what walking from its head returns,
      given enough fuel. */
  lemma {:induction false} LinkedChainIsWalked(d: Device, g: Geometry, ch: seq<nat>, fuel: nat)
    requires Valid(d)
    requires Linked(d, g, ch)
    requires |ch| <= fuel
    ensures ClusterChain(d, g, ch[0], fuel) == Done(ch)
  {
    if |ch| > 1 {
      var rest := ch[1..];
      assert Linked(d, g, rest) by {
        forall j, k | 0 <= j && k == j + 1 && k < |rest|
          ensures FatValue(d, g, rest[j]) == Some(rest[k]) && rest[k] != EndOfChain
        {
          assert rest[j] == ch[j + 1] && rest[k] == ch[k + 1];
        }
      }
      LinkedChainIsWalked(d, g, rest, fuel - 1);
      assert FatValue(d, g, ch[0]) == Some(ch[1]) && ch[1] != EndOfChain by {
        assert 0 <= 0 && 1 == 0 + 1 && 1 < |ch|;
      }
      assert ch == [ch[0]] + rest;
    } else {
      assert FatValue(d, g, ch[0]) == Some(EndOfChain);
      assert Walk(d, g, ch[0], fuel) == Done([]);
      assert ch == [ch[0]] + [];
    }
  }

  // ---------------------------------------------------------------------------
  // Divergence: the walk's fuel against a cyclic FAT
  // ---------------------------------------------------------------------------

  /** The clusters met by following the FAT from c for at most n links, c first; the
      trail stops early at an entry whose sector cannot be read. */
  ghost function Trail(d: Device, g: Geometry, c: nat, n: nat): (t: seq<nat>)
    requires Valid(d)
    ensures 0 < |t| <= n + 1 && t[0] == c
    decreases n
  {
    if n == 0 then [c]
    else match FatValue(d, g, c)
      case None => [c]
      case Some(v) => [c] + Trail(d, g, v, n - 1)
  }

  /** A walk reported as Diverge has followed `fuel` links, none of them to the marker:
      `getClusterChain` is still in its loop after `fuel` FAT reads. */
  lemma {:induction false} DivergeFollowsLinks(d: Device, g: Geometry, c: nat, fuel: nat)
    requires Valid(d) && Walk(d, g, c, fuel) == Diverge
    ensures |Trail(d, g, c, fuel)| == fuel + 1
    ensures forall j, k :: 0 <= j && k == j + 1 && k <= fuel ==>
      FatValue(d, g, Trail(d, g, c, fuel)[j]) == Some(Trail(d, g, c, fuel)[k]) && Trail(d, g, c, fuel)[k] != EndOfChain
    decreases fuel
  {
    if fuel > 0 {
      var v := FatValue(d, g, c).value;
      DivergeFollowsLinks(d, g, v, fuel - 1);
      var t, rest := Trail(d, g, c, fuel), Trail(d, g, v, fuel - 1);
      assert t == [c] + rest;
      forall j, k | 0 <= j && k == j + 1 && k <= fuel
        ensures FatValue(d, g, t[j]) == Some(t[k]) && t[k] != EndOfChain
      {
        if j > 0 {
          assert t[j] == rest[j - 1] && t[k] == rest[k - 1];
        }
      }
    }
  }

  /** The n consecutive numbers from lo. */
  ghost function Range(lo: nat, n: nat): (r: set<nat>)
    ensures forall c :: c in r <==> lo <= c < lo + n
    ensures |r| == n
  {
    if n == 0 then {} else Range(lo, n - 1) + {lo + n - 1}
  }

  /** At most 128 clusters share one FAT sector: those from 128q to 128q + 127. */
  lemma SameSectorBound(x: set<nat>, q: int)
    requires forall c :: c in x ==> q * 128 <= c < (q + 1) * 128
    ensures |x| <= 128
  {
    if x != {} {
      var c0 :| c0 in x;
      var range := Range(q * 128, 128);
      assert x <= range;
      assert range == x + (range - x);
    }
  }

  /** Clusters whose FAT entries all lie in the sectors `sectors` number at most 128 per
      sector. */
  lemma {:induction false} SectorsBoundClusters(g: Geometry, x: set<nat>, sectors: set<int>)
    requires forall c :: c in x ==> EntryLba(g, c) in sectors
    ensures |x| <= 128 * |sectors|
    decreases |x|
  {
    if x != {} {
      var c0 :| c0 in x;
      var k := EntryLba(g, c0);
      var same := set c | c in x && EntryLba(g, c) == k;
      assert c0 in same;
      SectorsBoundClusters(g, x - same, sectors - {k});
      SameSectorBound(same, k - FatStart(g));
      assert x == same + (x - same);
    }
  }

  /** The members of t. */
  ghost function Members(t: seq<nat>): (r: set<nat>)
    ensures forall c :: c in r <==> c in t
  {
    if t == [] then {} else Members(t[..|t| - 1]) + {t[|t| - 1]}
  }

  /** A sequence without repeats has as many members as elements. */
  lemma {:induction false} DistinctSize(t: seq<nat>)
    requires forall a, b :: 0 <= a < b < |t| ==> t[a] != t[b]
    ensures |Members(t)| == |t|
  {
    if t != [] {
      DistinctSize(t[..|t| - 1]);
    }
  }

  /** A trail of readable FAT entries longer than 128 per sector of the device meets
      some cluster twice. */
  lemma LongTrailRepeats(d: Device, g: Geometry, t: seq<nat>)
    requires Valid(d) && |t| > 128 * |d.sectors|
    requires forall j :: 0 <= j < |t| ==> FatValue(d, g, t[j]).Some?
    ensures exists a, b :: 0 <= a < b < |t| && t[a] == t[b]
  {
    if !exists a, b :: 0 <= a < b < |t| && t[a] == t[b] {
      DistinctSize(t);
      var x := Members(t);
      forall c | c in x
        ensures EntryLba(g, c) in d.sectors.Keys
      {
        var j :| 0 <= j < |t| && t[j] == c;
        assert FatValue(d, g, t[j]).Some?;
      }
      SectorsBoundClusters(g, x, d.sectors.Keys);
      assert false;
    }
  }

  /** With more fuel than 128 clusters per sector of the device, a walk reported as
      Diverge has met some cluster twice: the chain runs into a cycle, on which
      `getClusterChain` loops forever. */
  lemma DivergeMeansCycle(d: Device, g: Geometry, c: nat, fuel: nat)
    requires Valid(d) && fuel > 128 * |d.sectors| && Walk(d, g, c, fuel) == Diverge
    ensures |Trail(d, g, c, fuel)| == fuel + 1
    ensures exists a, b :: 0 <= a < b < fuel && Trail(d, g, c, fuel)[a] == Trail(d, g, c, fuel)[b]
  {
    DivergeFollowsLinks(d, g, c, fuel);
    var t := Trail(d, g, c, fuel);
    var u := t[..fuel];
    forall j | 0 <= j < |u|
      ensures FatValue(d, g, u[j]).Some?
    {
      assert FatValue(d, g, t[j]) == Some(t[j + 1]);
    }
    LongTrailRepeats(d, g, u);
    var a, b :| 0 <= a < b < |u| && u[a] == u[b];
    assert t[a] == t[b];
  }

  // ---------------------------------------------------------------------------
  // Finding free entries (the scan of setClusterChain)
  // ---------------------------------------------------------------------------

  /** The free (zero) clusters below `limit`, in ascending order: the reference the
      allocator's scan is measured against. A cluster whose FAT sector cannot be read is
      not counted as free. */
  ghost function Zeros(d: Device, g: Geometry, limit: nat): seq<nat>
    requires Valid(d)
    decreases limit
  {
    if limit == 0 then []
    else Zeros(d, g, limit - 1) + (if FatValue(d, g, limit - 1) == Some(0) then [limit - 1] else [])
  }

  /** Zeros lists, in strictly ascending order, exactly the clusters below the limit whose
      entry reads as zero. */
  lemma {:induction false} ZerosAreTheFreeClusters(d: Device, g: Geometry, limit: nat)
    requires Valid(d)
    ensures forall j, k :: 0 <= j < k < |Zeros(d, g, limit)| ==> Zeros(d, g, limit)[j] < Zeros(d, g, limit)[k]
    ensures forall c: nat :: c in Zeros(d, g, limit) <==> c < limit && FatValue(d, g, c) == Some(0)
  {
    if limit > 0 {
      ZerosAreTheFreeClusters(d, g, limit - 1);
      var z := Zeros(d, g, limit - 1);
      var free := FatValue(d, g, limit - 1) == Some(0);
      var zs := z + (if free then [limit - 1] else []);
      assert Zeros(d, g, limit) == zs;
      if free {
        AppendLargerAscends(z, limit - 1);
      }
      forall c: nat
        ensures c in zs <==> c < limit && FatValue(d, g, c) == Some(0)
      {
        if c != limit - 1 {
          assert c in zs <==> c in z;
        }
      }
    }
  }

  /** Appending a number above every member keeps a sequence ascending. */
  lemma AppendLargerAscends(z: seq<nat>, x: nat)
    requires forall j, k :: 0 <= j < k < |z| ==> z[j] < z[k]
    requires forall c :: c in z ==> c < x
    ensures forall j, k :: 0 <= j < k < |z + [x]| ==> (z + [x])[j] < (z + [x])[k]
  {
    var zs := z + [x];
    forall j, k | 0 <= j < k < |zs| ensures zs[j] < zs[k] {
      if k == |zs| - 1 {
        assert zs[j] in z;
      }
    }
  }

  /** The outcome of the scan: a read failed or the request size could not be stored
      (a runtime exception), too few free entries, or the first n free clusters and the
      FAT sector (counted from the first) in which the last of them was found. */
  datatype ScanResult = ScanCrash | Exhausted | Found(clusters: seq<nat>, sector: nat)

  /** The scan, entry by entry from slot e of FAT sector s, having collected `found`. It
      reads sectors 0 .. sectorsPerFat, one more than the FAT holds. Asked for 0 clusters,
      it fails on the first free entry, where the engine stores into an empty array. */
  function ScanFrom(d: Device, g: Geometry, n: nat, s: nat, e: nat, found: seq<nat>): ScanResult
    requires Valid(d)
    requires s <= g.sectorsPerFat && e <= EntriesPerSector
    requires |found| < n || (n == 0 && found == [])
    decreases g.sectorsPerFat - s, EntriesPerSector - e
  {
    var lba := FatStart(g) + s;
    if lba !in d.sectors then ScanCrash
    else if e == EntriesPerSector then
      if s == g.sectorsPerFat then Exhausted else ScanFrom(d, g, n, s + 1, 0, found)
    else if SlotValue(d.sectors[lba], e) != 0 then ScanFrom(d, g, n, s, e + 1, found)
    else if n == 0 then ScanCrash
    else if |found| + 1 == n then Found(found + [s * 128 + e], s)
    else ScanFrom(d, g, n, s, e + 1, found + [s * 128 + e])
  }

  function Scan(d: Device, g: Geometry, n: nat): ScanResult
    requires Valid(d)
  {
    ScanFrom(d, g, n, 0, 0, [])
  }

  /** Every FAT sector the scan may read is readable. */
  ghost predicate FatReadable(d: Device, g: Geometry)
  {
    forall x :: FatStart(g) <= x <= FatStart(g) + g.sectorsPerFat ==> x in d.sectors
  }

  /** The number of clusters the scanned sectors describe. */
  function ScannedClusters(g: Geometry): nat
  {
    (g.sectorsPerFat + 1) * 128
  }

  /** One step of the scan against the reference: slot e of FAT sector s is cluster
      128*s + e, and it joins Zeros exactly when the slot reads zero. */
  lemma ZerosStep(d: Device, g: Geometry, s: nat, e: nat)
    requires Valid(d) && e < EntriesPerSector && FatStart(g) + s in d.sectors
    ensures (s * 128 + e) / 128 == s
    ensures Zeros(d, g, s * 128 + e + 1) == Zeros(d, g, s * 128 + e) +
      (if SlotValue(d.sectors[FatStart(g) + s], e) == 0 then [s * 128 + e] else [])
  {
    SlotAddressRoundTrip(g, s, e);
  }

  /** What a scan verdict means against the reference (see ScanMeetsZeros). */
  ghost predicate ScanAgrees(d: Device, g: Geometry, n: nat, r: ScanResult)
    requires Valid(d)
  {
    && (r.Found? ==>
         && |r.clusters| == n > 0
         && r.clusters == Zeros(d, g, r.clusters[n - 1] + 1)
         && r.sector == r.clusters[n - 1] / 128 <= g.sectorsPerFat)
    && (r.Exhausted? ==> |Zeros(d, g, ScannedClusters(g))| < n || Zeros(d, g, ScannedClusters(g)) == [])
    && (r.ScanCrash? ==> n == 0 || !FatReadable(d, g))
  }

  /** A used slot: the scan moves on with the same clusters, which are still the reference
      up to the next slot. */
  lemma UsedSlotStep(d: Device, g: Geometry, n: nat, s: nat, e: nat, found: seq<nat>)
    requires Valid(d)
    requires s <= g.sectorsPerFat && e < EntriesPerSector && FatStart(g) + s in d.sectors
    requires |found| < n || (n == 0 && found == [])
    requires found == Zeros(d, g, s * 128 + e)
    requires SlotValue(d.sectors[FatStart(g) + s], e) != 0
    ensures found == Zeros(d, g, s * 128 + (e + 1))
    ensures ScanFrom(d, g, n, s, e, found) == ScanFrom(d, g, n, s, e + 1, found)
  {
    ZerosStep(d, g, s, e);
  }

  /** A free slot that is not the last one wanted: the scan moves on with it added. */
  lemma FreeSlotStep(d: Device, g: Geometry, n: nat, s: nat, e: nat, found: seq<nat>)
    requires Valid(d)
    requires s <= g.sectorsPerFat && e < EntriesPerSector && FatStart(g) + s in d.sectors
    requires 0 < n && |found| + 1 < n
    requires found == Zeros(d, g, s * 128 + e)
    requires SlotValue(d.sectors[FatStart(g) + s], e) == 0
    ensures found + [s * 128 + e] == Zeros(d, g, s * 128 + (e + 1))
    ensures ScanFrom(d, g, n, s, e, found) == ScanFrom(d, g, n, s, e + 1, found + [s * 128 + e])
  {
    ZerosStep(d, g, s, e);
  }

  /** A free slot where the scan stops: with nothing asked for it fails, and otherwise it
      has found the first n free clusters. */
  lemma LastSlotStep(d: Device, g: Geometry, n: nat, s: nat, e: nat, found: seq<nat>)
    requires Valid(d)
    requires s <= g.sectorsPerFat && e < EntriesPerSector && FatStart(g) + s in d.sectors
    requires |found| < n || (n == 0 && found == [])
    requires !(0 < n && |found| + 1 < n)
    requires found == Zeros(d, g, s * 128 + e)
    requires SlotValue(d.sectors[FatStart(g) + s], e) == 0
    ensures ScanAgrees(d, g, n, ScanFrom(d, g, n, s, e, found))
  {
    ZerosStep(d, g, s, e);
    ScanSlot(d, g, n, s, e, found);
    if n != 0 {
      var cs := found + [s * 128 + e];
      assert ScanFrom(d, g, n, s, e, found) == Found(cs, s);
      assert cs[n - 1] == s * 128 + e;
    }
  }

  /** One slot of the scan, as the engine's inner loop takes it. */
  lemma ScanSlot(d: Device, g: Geometry, n: nat, s: nat, e: nat, found: seq<nat>)
    requires Valid(d) && FatStart(g) + s in d.sectors
    requires s <= g.sectorsPerFat && e < EntriesPerSector
    requires |found| < n || (n == 0 && found == [])
    ensures SlotValue(d.sectors[FatStart(g) + s], e) != 0 ==>
      ScanFrom(d, g, n, s, e, found) == ScanFrom(d, g, n, s, e + 1, found)
    ensures SlotValue(d.sectors[FatStart(g) + s], e) == 0 && n == 0 ==>
      ScanFrom(d, g, n, s, e, found) == ScanCrash
    ensures SlotValue(d.sectors[FatStart(g) + s], e) == 0 && |found| + 1 == n ==>
      ScanFrom(d, g, n, s, e, found) == Found(found + [s * 128 + e], s)
    ensures SlotValue(d.sectors[FatStart(g) + s], e) == 0 && 0 < n && |found| + 1 < n ==>
      ScanFrom(d, g, n, s, e, found) == ScanFrom(d, g, n, s, e + 1, found + [s * 128 + e])
  {
  }

  lemma {:induction false} ScanFromMeetsZeros(d: Device, g: Geometry, n: nat, s: nat, e: nat, found: seq<nat>)
    requires Valid(d)
    requires s <= g.sectorsPerFat && e <= EntriesPerSector
    requires |found| < n || (n == 0 && found == [])
    requires found == Zeros(d, g, s * 128 + e)
    ensures ScanAgrees(d, g, n, ScanFrom(d, g, n, s, e, found))
    decreases g.sectorsPerFat - s, EntriesPerSector - e, 1
  {
    if FatStart(g) + s !in d.sectors {
      assert ScanFrom(d, g, n, s, e, found) == ScanCrash && !FatReadable(d, g);
    } else if e == EntriesPerSector {
      SectorEndMeetsZeros(d, g, n, s, found);
    } else {
      SlotMeetsZeros(d, g, n, s, e, found);
    }
  }

  lemma ZerosAtSameLimit(d: Device, g: Geometry, a: nat, b: nat)
    requires Valid(d) && a == b
    ensures Zeros(d, g, a) == Zeros(d, g, b)
  {
  }

  /** The scan at the end of a sector: on to the next, or too few free entries. */
  lemma {:induction false} SectorEndMeetsZeros(d: Device, g: Geometry, n: nat, s: nat, found: seq<nat>)
    requires Valid(d) && FatStart(g) + s in d.sectors
    requires s <= g.sectorsPerFat
    requires |found| < n || (n == 0 && found == [])
    requires found == Zeros(d, g, s * 128 + 128)
    ensures ScanAgrees(d, g, n, ScanFrom(d, g, n, s, EntriesPerSector, found))
    decreases g.sectorsPerFat - s, 0, 0
  {
    if s < g.sectorsPerFat {
      NextSectorStep(d, g, n, s, found);
      ZerosAtSameLimit(d, g, s * 128 + 128, (s + 1) * 128 + 0);
      ScanFromMeetsZeros(d, g, n, s + 1, 0, found);
    } else {
      ExhaustedStep(d, g, n, s, found);
    }
  }

  /** At the end of a sector that is not the last, the scan goes on at slot 0 of the next. */
  lemma NextSectorStep(d: Device, g: Geometry, n: nat, s: nat, found: seq<nat>)
    requires Valid(d) && FatStart(g) + s in d.sectors
    requires s < g.sectorsPerFat
    requires |found| < n || (n == 0 && found == [])
    ensures ScanFrom(d, g, n, s, EntriesPerSector, found) == ScanFrom(d, g, n, s + 1, 0, found)
  {
  }

  lemma ExhaustedStep(d: Device, g: Geometry, n: nat, s: nat, found: seq<nat>)
    requires Valid(d) && FatStart(g) + s in d.sectors
    requires s == g.sectorsPerFat
    requires |found| < n || (n == 0 && found == [])
    requires found == Zeros(d, g, s * 128 + 128)
    ensures ScanAgrees(d, g, n, ScanFrom(d, g, n, s, EntriesPerSector, found))
  {
    ExhaustedAtLastSector(d, g, n, s, found);
    ZerosAtSameLimit(d, g, s * 128 + 128, ScannedClusters(g));
    ExhaustedAgrees(d, g, n);
  }

  lemma ExhaustedAtLastSector(d: Device, g: Geometry, n: nat, s: nat, found: seq<nat>)
    requires Valid(d) && FatStart(g) + s in d.sectors
    requires s == g.sectorsPerFat
    requires |found| < n || (n == 0 && found == [])
    ensures ScanFrom(d, g, n, s, EntriesPerSector, found) == Exhausted
  {
  }

  lemma ExhaustedAgrees(d: Device, g: Geometry, n: nat)
    requires Valid(d)
    requires |Zeros(d, g, ScannedClusters(g))| < n || Zeros(d, g, ScannedClusters(g)) == []
    ensures ScanAgrees(d, g, n, Exhausted)
  {
  }

  /** The scan at slot e of a readable sector. */
  lemma {:induction false} SlotMeetsZeros(d: Device, g: Geometry, n: nat, s: nat, e: nat, found: seq<nat>)
    requires Valid(d) && FatStart(g) + s in d.sectors
    requires s <= g.sectorsPerFat && e < EntriesPerSector
    requires |found| < n || (n == 0 && found == [])
    requires found == Zeros(d, g, s * 128 + e)
    ensures ScanAgrees(d, g, n, ScanFrom(d, g, n, s, e, found))
    decreases g.sectorsPerFat - s, EntriesPerSector - e, 0
  {
    if SlotValue(d.sectors[FatStart(g) + s], e) != 0 {
      UsedSlotStep(d, g, n, s, e, found);
      ScanFromMeetsZeros(d, g, n, s, e + 1, found);
      AgreesOnSame(d, g, n, ScanFrom(d, g, n, s, e, found), ScanFrom(d, g, n, s, e + 1, found));
    } else if n > 0 && |found| + 1 < n {
      FreeSlotStep(d, g, n, s, e, found);
      ScanFromMeetsZeros(d, g, n, s, e + 1, found + [s * 128 + e]);
      AgreesOnSame(d, g, n, ScanFrom(d, g, n, s, e, found), ScanFrom(d, g, n, s, e + 1, found + [s * 128 + e]));
    } else {
      LastSlotStep(d, g, n, s, e, found);
    }
  }

  lemma AgreesOnSame(d: Device, g: Geometry, n: nat, r: ScanResult, r': ScanResult)
    requires Valid(d) && r == r' && ScanAgrees(d, g, n, r')
    ensures ScanAgrees(d, g, n, r)
  {
  }

  /** The scan's verdicts, against the reference: success returns the first n free
      clusters in ascending order, all inside the scanned sectors; too few free entries
      means fewer than n are free there; a crash needs an unreadable FAT sector or a
      request for 0 clusters. */
  lemma ScanMeetsZeros(d: Device, g: Geometry, n: nat)
    requires Valid(d)
    ensures Scan(d, g, n).Found? ==>
      var cs := Scan(d, g, n).clusters;
      && |cs| == n > 0
      && cs == Zeros(d, g, cs[n - 1] + 1)
      && Scan(d, g, n).sector == cs[n - 1] / 128 <= g.sectorsPerFat
    ensures Scan(d, g, n).Exhausted? ==>
      |Zeros(d, g, ScannedClusters(g))| < n || Zeros(d, g, ScannedClusters(g)) == []
    ensures Scan(d, g, n).ScanCrash? ==> n == 0 || !FatReadable(d, g)
  {
    ScanFromMeetsZeros(d, g, n, 0, 0, []);
    assert ScanAgrees(d, g, n, Scan(d, g, n));
  }

  // ---------------------------------------------------------------------------
  // Linking the found clusters (the write pass of setClusterChain)
  // ---------------------------------------------------------------------------

  /** What the entry of cs[j] is set to: the next cluster, or the marker for the last. */
  function NextLink(cs: seq<nat>, j: nat): nat
    requires j < |cs|
  {
    if j < |cs| - 1 then cs[j + 1] else EndOfChain
  }

  /** Re-read the sector of c's entry, patch the entry to v, write the sector back. The
      write's status is ignored, as in the engine. */
  function SetEntry(d: Device, g: Geometry, c: nat, v: nat): (r: Device)
    requires Valid(d) && v < TwoTo32
    ensures Valid(r) && r.sectors.Keys == d.sectors.Keys && r.failing == d.failing
  {
    var lba := EntryLba(g, c);
    if lba in d.sectors then
      EntryAddressRoundTrip(g, c);
      WriteBytes(d, lba, PutLe32(d.sectors[lba], 4 * EntrySectorIndex(c), v)).0
    else d
  }

  /** The write pass from element j on. */
  function LinkFrom(d: Device, g: Geometry, cs: seq<nat>, j: nat): (r: Device)
    requires Valid(d) && j <= |cs|
    requires forall k :: 0 <= k < |cs| ==> cs[k] < TwoTo32
    ensures Valid(r) && r.sectors.Keys == d.sectors.Keys && r.failing == d.failing
    decreases |cs| - j
  {
    if j == |cs| then d
    else LinkFrom(SetEntry(d, g, cs[j], NextLink(cs, j)), g, cs, j + 1)
  }

  /** One step of the write pass: the entry of cs[j] is set, then the pass goes on. */
  lemma LinkFromStep(d: Device, g: Geometry, cs: seq<nat>, j: nat)
    requires Valid(d) && j < |cs|
    requires forall k :: 0 <= k < |cs| ==> cs[k] < TwoTo32
    ensures NextLink(cs, j) < TwoTo32
    ensures LinkFrom(d, g, cs, j) == LinkFrom(SetEntry(d, g, cs[j], NextLink(cs, j)), g, cs, j + 1)
  {
  }

  /** The sector of c's entry can be rewritten. */
  predicate EntryWritable(d: Device, g: Geometry, c: nat)
  {
    EntryLba(g, c) in d.sectors && EntryLba(g, c) !in d.failing
  }

  /** Setting one entry changes that entry (when its sector is writable) and no other
      entry, and no sector other than the entry's own. */
  lemma SetEntryEffect(d: Device, g: Geometry, c: nat, v: nat)
    requires Valid(d) && v < TwoTo32
    ensures EntryWritable(d, g, c) ==> FatValue(SetEntry(d, g, c, v), g, c) == Some(v)
    ensures forall c' :: c' != c ==> FatValue(SetEntry(d, g, c, v), g, c') == FatValue(d, g, c')
    ensures forall x :: x in d.sectors && x != EntryLba(g, c) ==> SetEntry(d, g, c, v).sectors[x] == d.sectors[x]
  {
    var lba := EntryLba(g, c);
    var r := SetEntry(d, g, c, v);
    if lba in d.sectors {
      EntryAddressRoundTrip(g, c);
      var i := EntrySectorIndex(c);
      var patched := PutLe32(d.sectors[lba], 4 * i, v);
      assert |patched| / SectorSize == 1;
      if EntryWritable(d, g, c) {
        assert r.sectors[lba] == SectorOf(patched, 0) == patched;
      }
      forall c' | c' != c
        ensures FatValue(r, g, c') == FatValue(d, g, c')
      {
        EntryAddressRoundTrip(g, c');
        if EntryLba(g, c') == lba && lba in r.sectors && lba !in d.failing {
          var i' := EntrySectorIndex(c');
          assert i' != i;
          assert r.sectors[lba] == patched;
          assert Le32At(patched, 4 * i') == Le32At(d.sectors[lba], 4 * i');
        }
      }
    }
  }

  /** The write pass from j on: when every sector involved is writable, the entry of each
      cs[k] (k >= j) names its successor and the last names the marker; whether or not the
      writes succeed, the entry of every other cluster and every sector holding none of
      these entries are left as they were. */
  lemma {:induction false} LinkFromEffect(d: Device, g: Geometry, cs: seq<nat>, j: nat)
    requires Valid(d) && j <= |cs|
    requires forall k :: 0 <= k < |cs| ==> cs[k] < TwoTo32
    requires forall a, b :: 0 <= a < b < |cs| ==> cs[a] < cs[b]
    ensures (forall k :: j <= k < |cs| ==> EntryWritable(d, g, cs[k])) ==>
      forall k :: j <= k < |cs| ==> FatValue(LinkFrom(d, g, cs, j), g, cs[k]) == Some(NextLink(cs, k))
    ensures forall c :: c !in cs[j..] ==> FatValue(LinkFrom(d, g, cs, j), g, c) == FatValue(d, g, c)
    ensures forall x :: x in d.sectors && (forall k :: j <= k < |cs| ==> x != EntryLba(g, cs[k])) ==>
      LinkFrom(d, g, cs, j).sectors[x] == d.sectors[x]
    decreases |cs| - j
  {
    if j < |cs| {
      var d1 := SetEntry(d, g, cs[j], NextLink(cs, j));
      SetEntryEffect(d, g, cs[j], NextLink(cs, j));
      LinkFromEffect(d1, g, cs, j + 1);
      var r := LinkFrom(d, g, cs, j);
      assert r == LinkFrom(d1, g, cs, j + 1);
      assert cs[j] !in cs[j + 1..];
      forall c | c !in cs[j..]
        ensures FatValue(r, g, c) == FatValue(d, g, c)
      {
        assert c != cs[j];
        assert c !in cs[j + 1..];
      }
      if forall k :: j <= k < |cs| ==> EntryWritable(d, g, cs[k]) {
        forall k | j < k < |cs|
          ensures EntryWritable(d1, g, cs[k])
        {
          assert EntryWritable(d, g, cs[k]);
        }
      }
    }
  }

  /** The clusters a successful scan returns are strictly ascending and below the
      end-of-chain marker. */
  lemma FoundClustersOrdered(d: Device, g: Geometry, n: nat)
    requires Valid(d) && Supported(g)
    requires Scan(d, g, n).Found?
    ensures |Scan(d, g, n).clusters| == n > 0
    ensures forall k :: 0 <= k < n ==> Scan(d, g, n).clusters[k] < EndOfChain
    ensures forall a, b :: 0 <= a < b < n ==> Scan(d, g, n).clusters[a] < Scan(d, g, n).clusters[b]
  {
    var cs := Scan(d, g, n).clusters;
    ScanMeetsZeros(d, g, n);
    ZerosAreTheFreeClusters(d, g, cs[n - 1] + 1);
    assert forall k :: 0 <= k < n ==> cs[k] <= cs[n - 1];
    assert cs[n - 1] < ScannedClusters(g) by {
      assert cs[n - 1] / 128 <= g.sectorsPerFat;
    }
  }

  /** Linking distinct ascending clusters below the marker on a writable FAT makes them a
      chain, and leaves every other entry as it was. */
  lemma LinkFromMakesChain(d: Device, g: Geometry, cs: seq<nat>)
    requires Valid(d) && |cs| > 0
    requires forall k :: 0 <= k < |cs| ==> cs[k] < EndOfChain
    requires forall a, b :: 0 <= a < b < |cs| ==> cs[a] < cs[b]
    requires forall c :: c in cs ==> EntryWritable(d, g, c)
    ensures forall k :: 0 <= k < |cs| ==> cs[k] < TwoTo32
    ensures Linked(LinkFrom(d, g, cs, 0), g, cs)
    ensures forall c :: c !in cs ==> FatValue(LinkFrom(d, g, cs, 0), g, c) == FatValue(d, g, c)
  {
    var after := LinkFrom(d, g, cs, 0);
    assert cs[0..] == cs;
    LinkFromEffect(d, g, cs, 0);
    forall j, k | 0 <= j && k == j + 1 && k < |cs|
      ensures FatValue(after, g, cs[j]) == Some(cs[k]) && cs[k] != EndOfChain
    {
      assert NextLink(cs, j) == cs[k];
    }
    assert FatValue(after, g, cs[|cs| - 1]) == Some(NextLink(cs, |cs| - 1));
  }

  /** The allocation guarantee: after a successful scan for n clusters and the write pass
      over a writable FAT, the entries of the found clusters form a chain that the walk
      returns exactly, and every other cluster's entry is what it was. */
  lemma AllocatedChainIsWalked(d: Device, g: Geometry, n: nat)
    requires Valid(d) && Supported(g)
    requires Scan(d, g, n).Found?
    requires forall c :: c in Scan(d, g, n).clusters ==> EntryWritable(d, g, c)
    ensures |Scan(d, g, n).clusters| == n > 0
    ensures forall k :: 0 <= k < |Scan(d, g, n).clusters| ==> Scan(d, g, n).clusters[k] < EndOfChain
    ensures ClusterChain(LinkFrom(d, g, Scan(d, g, n).clusters, 0), g, Scan(d, g, n).clusters[0], n)
              == Done(Scan(d, g, n).clusters)
    ensures forall c :: c !in Scan(d, g, n).clusters ==>
              FatValue(LinkFrom(d, g, Scan(d, g, n).clusters, 0), g, c) == FatValue(d, g, c)
  {
    var cs := Scan(d, g, n).clusters;
    FoundClustersOrdered(d, g, n);
    LinkFromMakesChain(d, g, cs);
    LinkedChainIsWalked(LinkFrom(d, g, cs, 0), g, cs, n);
  }

  // ---------------------------------------------------------------------------
  // setClusterChain as a whole
  // ---------------------------------------------------------------------------

  /** `setClusterChain(n)`: the device afterwards and what the engine returns. A failed
      read or a request for 0 clusters meeting a free entry is a runtime exception; too
      few free entries give null with nothing written; n free entries are linked, and the
      list is returned, except that when the last was found in the sector after the FAT
      the links stay written and null is returned. */
  function Allocate(d: Device, g: Geometry, n: nat): (r: (Device, Outcome<Option<seq<nat>>>))
    requires Valid(d) && Supported(g)
    ensures Valid(r.0) && r.0.sectors.Keys == d.sectors.Keys && r.0.failing == d.failing
    ensures r.1.Done? && r.1.value.Some? ==> |r.1.value.value| == n > 0
  {
    match Scan(d, g, n)
    case ScanCrash => (d, Crash)
    case Exhausted => (d, Done(None))
    case Found(cs, s) =>
      FoundClustersOrdered(d, g, n);
      (LinkFrom(d, g, cs, 0), if s == g.sectorsPerFat then Done(None) else Done(Some(cs)))
  }

  /** Allocate in each of the scan's verdicts. */
  lemma AllocateByScan(d: Device, g: Geometry, n: nat)
    requires Valid(d) && Supported(g)
    ensures Scan(d, g, n).ScanCrash? ==> Allocate(d, g, n) == (d, Crash)
    ensures Scan(d, g, n).Exhausted? ==> Allocate(d, g, n) == (d, Done(None))
    ensures Scan(d, g, n).Found? ==>
      && (forall k :: 0 <= k < |Scan(d, g, n).clusters| ==> Scan(d, g, n).clusters[k] < TwoTo32)
      && Allocate(d, g, n) ==
           (LinkFrom(d, g, Scan(d, g, n).clusters, 0),
            if Scan(d, g, n).sector == g.sectorsPerFat then Done(None) else Done(Some(Scan(d, g, n).clusters)))
  {
    if Scan(d, g, n).Found? {
      FoundClustersOrdered(d, g, n);
    }
  }

  /** A call that crashes or finds too few free entries writes nothing; one that returns
      a list returns the first n free clusters in ascending order, all below the marker,
      with every one of their FAT sectors lying inside the FAT. */
  lemma AllocateOutcomes(d: Device, g: Geometry, n: nat)
    requires Valid(d) && Supported(g)
    ensures Allocate(d, g, n).1.Crash? ==> Allocate(d, g, n).0 == d && (n == 0 || !FatReadable(d, g))
    ensures Allocate(d, g, n).1.Diverge? == false
    ensures Scan(d, g, n).Exhausted? ==> Allocate(d, g, n) == (d, Done(None))
    ensures Allocate(d, g, n).1.Done? && Allocate(d, g, n).1.value.Some? ==>
      var cs := Allocate(d, g, n).1.value.value;
      && |cs| == n > 0
      && cs == Zeros(d, g, cs[n - 1] + 1)
      && cs[n - 1] / 128 < g.sectorsPerFat
      && (forall k :: 0 <= k < n ==> cs[k] < EndOfChain)
      && (forall a, b :: 0 <= a < b < n ==> cs[a] < cs[b])
  {
    ScanMeetsZeros(d, g, n);
    if Scan(d, g, n).Found? {
      FoundClustersOrdered(d, g, n);
    }
  }

  /** Raising the limit never loses a free cluster. */
  lemma {:induction false} ZerosGrow(d: Device, g: Geometry, a: nat, b: nat)
    requires Valid(d) && a <= b
    ensures |Zeros(d, g, a)| <= |Zeros(d, g, b)|
    decreases b - a
  {
    if a < b {
      ZerosGrow(d, g, a, b - 1);
    }
  }

  /** A scan that finds n free entries has seen n of them among the clusters it covers. */
  lemma FoundNeedsFreeEntries(d: Device, g: Geometry, n: nat)
    requires Valid(d) && Scan(d, g, n).Found?
    ensures n <= |Zeros(d, g, ScannedClusters(g))|
  {
    ScanMeetsZeros(d, g, n);
    var last := Scan(d, g, n).clusters[n - 1];
    var q := last / 128;
    assert last < q * 128 + 128;
    assert q * 128 + 128 <= ScannedClusters(g) by {
      assert q <= g.sectorsPerFat;
      assert ScannedClusters(g) == g.sectorsPerFat * 128 + 128;
    }
    ZerosGrow(d, g, last + 1, ScannedClusters(g));
  }

  /** The converse of the failure case: when the FAT (and the sector after it) can be
      read and holds fewer than n free entries, the allocation writes nothing and
      returns null. */
  lemma TooFewFreeWritesNothing(d: Device, g: Geometry, n: nat)
    requires Valid(d) && Supported(g) && FatReadable(d, g)
    requires |Zeros(d, g, ScannedClusters(g))| < n
    ensures Scan(d, g, n).Exhausted?
    ensures Allocate(d, g, n) == (d, Done(None))
  {
    ScanMeetsZeros(d, g, n);
    if Scan(d, g, n).Found? {
      FoundNeedsFreeEntries(d, g, n);
    }
    AllocateByScan(d, g, n);
  }

  /** A request for no clusters never returns a list and writes nothing: the engine's
      `++i == clusters` test cannot hold, so the scan either meets a free entry (and the
      store into the empty arrays throws) or runs out. */
  lemma ZeroRequestWritesNothing(d: Device, g: Geometry)
    requires Valid(d) && Supported(g)
    ensures Allocate(d, g, 0).0 == d
    ensures Allocate(d, g, 0).1 == Crash || Allocate(d, g, 0).1 == Done(None)
  {
    ScanMeetsZeros(d, g, 0);
    AllocateByScan(d, g, 0);
  }

  /** A free cluster is not one of the two reserved entries when those are in use. */
  lemma FreeIsData(d: Device, g: Geometry, c: nat)
    requires Valid(d) && FatValue(d, g, 0) != Some(0) && FatValue(d, g, 1) != Some(0)
    requires FatValue(d, g, c) == Some(0)
    ensures c >= 2
  {
  }

  /** With the FAT's two reserved entries in use, every free cluster below a limit is a
      data cluster (numbered 2 or more). */
  lemma FreeAreData(d: Device, g: Geometry, limit: nat)
    requires Valid(d) && FatValue(d, g, 0) != Some(0) && FatValue(d, g, 1) != Some(0)
    ensures forall j :: 0 <= j < |Zeros(d, g, limit)| ==> Zeros(d, g, limit)[j] >= 2
  {
    ZerosAreTheFreeClusters(d, g, limit);
    forall j | 0 <= j < |Zeros(d, g, limit)|
      ensures Zeros(d, g, limit)[j] >= 2
    {
      var c := Zeros(d, g, limit)[j];
      assert c in Zeros(d, g, limit);
      FreeIsData(d, g, c);
    }
  }

  /** With the FAT's two reserved entries in use, every allocated cluster is a data
      cluster; the list ascends. */
  lemma AllocatedAreDataClusters(d: Device, g: Geometry, n: nat)
    requires Valid(d) && Supported(g)
    requires FatValue(d, g, 0) != Some(0) && FatValue(d, g, 1) != Some(0)
    requires Allocate(d, g, n).1.Done? && Allocate(d, g, n).1.value.Some?
    ensures forall j :: 0 <= j < n ==> Allocate(d, g, n).1.value.value[j] >= 2
    ensures forall a, b :: 0 <= a < b < n ==> Allocate(d, g, n).1.value.value[a] < Allocate(d, g, n).1.value.value[b]
  {
    var cs := Allocate(d, g, n).1.value.value;
    AllocateOutcomes(d, g, n);
    FreeAreData(d, g, cs[n - 1] + 1);
  }

  /** When the allocation returns a list and the FAT sectors involved accept writes, the
      list is exactly the chain a walk from its head now returns, and no other cluster's
      FAT entry changed. */
  lemma AllocatedChainHolds(d: Device, g: Geometry, n: nat)
    requires Valid(d) && Supported(g)
    requires Allocate(d, g, n).1.Done? && Allocate(d, g, n).1.value.Some?
    requires forall c :: c in Allocate(d, g, n).1.value.value ==> EntryWritable(d, g, c)
    ensures ClusterChain(Allocate(d, g, n).0, g, Allocate(d, g, n).1.value.value[0], n)
              == Done(Allocate(d, g, n).1.value.value)
    ensures forall c :: c !in Allocate(d, g, n).1.value.value ==>
              FatValue(Allocate(d, g, n).0, g, c) == FatValue(d, g, c)
  {
    AllocatedChainIsWalked(d, g, n);
  }

  /** The allocation is not all-or-nothing: when the n-th free entry lies in the sector
      after the FAT, the engine reports failure (null), yet the entries are rewritten, so
      the first found cluster is no longer free. */
  lemma FailureAfterLinking(d: Device, g: Geometry, n: nat)
    requires Valid(d) && Supported(g)
    requires Scan(d, g, n).Found? && Scan(d, g, n).sector == g.sectorsPerFat
    requires forall c :: c in Scan(d, g, n).clusters ==> EntryWritable(d, g, c)
    ensures |Scan(d, g, n).clusters| == n > 0
    ensures Allocate(d, g, n).1 == Done(None)
    ensures FatValue(d, g, Scan(d, g, n).clusters[0]) == Some(0)
    ensures FatValue(Allocate(d, g, n).0, g, Scan(d, g, n).clusters[0]) != Some(0)
  {
    var cs := Scan(d, g, n).clusters;
    FoundClustersOrdered(d, g, n);
    FirstFoundIsFree(d, g, n);
    LinkFromMakesChain(d, g, cs);
    HeadLinkIsNotZero(LinkFrom(d, g, cs, 0), g, cs);
  }

  /** The first cluster a successful scan returns has a zero FAT entry. */
  lemma FirstFoundIsFree(d: Device, g: Geometry, n: nat)
    requires Valid(d) && Supported(g)
    requires Scan(d, g, n).Found?
    ensures |Scan(d, g, n).clusters| == n > 0
    ensures FatValue(d, g, Scan(d, g, n).clusters[0]) == Some(0)
  {
    var cs := Scan(d, g, n).clusters;
    ScanMeetsZeros(d, g, n);
    ZerosAreTheFreeClusters(d, g, cs[n - 1] + 1);
    assert cs[0] in Zeros(d, g, cs[n - 1] + 1);
  }

  /** The head of an ascending chain links to a later cluster or the marker, never 0. */
  lemma HeadLinkIsNotZero(d: Device, g: Geometry, cs: seq<nat>)
    requires Valid(d) && Linked(d, g, cs)
    requires forall a, b :: 0 <= a < b < |cs| ==> cs[a] < cs[b]
    ensures FatValue(d, g, cs[0]) != Some(0)
  {
    if |cs| > 1 {
      assert 0 <= 0 && 1 == 0 + 1 && 1 < |cs|;
      assert FatValue(d, g, cs[0]) == Some(cs[1]);
    }
  }
}
