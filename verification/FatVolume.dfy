/** A FAT32 volume on values: sectors, the file allocation table, cluster chains and the bytes of a file. */
module FatVolume {
  import opened Arithmetic

  const SECTOR_SIZE: nat := 512
  const WORD32: nat := 0x1_0000_0000

  /** Values from here on end a chain; the failed lookup 0xFFFFFFFF is one of them. */
  const END_OF_CHAIN: nat := 0x0FFF_FFF8

  type Byte = b: nat | b < 256

  type Sector = s: seq<Byte> | |s| == 512 witness seq(512, i => 0)

  /** The boot-sector fields the layout depends on. */
  datatype BootSector = BootSector(reservedSectors: nat, fatCount: nat, sectorsPerFat: nat, sectorsPerCluster: nat)

  datatype Volume = Volume(fatStartLba: nat, clusterStartLba: nat, sectorsPerCluster: nat)

  /** FAT32_Initialize on unsigned 32-bit words. */
  function Layout(boot: BootSector, partitionOffset: nat): Volume
  {
    Volume((partitionOffset + boot.reservedSectors) % WORD32,
           (partitionOffset + boot.reservedSectors + boot.sectorsPerFat * boot.fatCount) % WORD32,
           boot.sectorsPerCluster)
  }

  /** When nothing wraps, the first table starts right behind the reserved sectors, data cluster 2 right behind the last
      of the tables, and every sector of the first table lies in front of the data. */
  lemma LayoutSeparates(boot: BootSector, partitionOffset: nat, cluster: nat)
    requires boot.fatCount > 0 && 4 * cluster / 512 < boot.sectorsPerFat
    requires partitionOffset + boot.reservedSectors + boot.sectorsPerFat * boot.fatCount < 0x1_0000_0000
    ensures var v := Layout(boot, partitionOffset);
      && v.fatStartLba == partitionOffset + boot.reservedSectors
      && v.fatStartLba + 4 * cluster / 512 < v.clusterStartLba
      && ClusterToLba(v, 2) == v.clusterStartLba == v.fatStartLba + boot.fatCount * boot.sectorsPerFat
      && v.sectorsPerCluster == boot.sectorsPerCluster
  {
    MulMonotone(1, boot.fatCount, boot.sectorsPerFat);
    assert (2 - 2) * boot.sectorsPerCluster == 0;
  }

  function ClusterSize(v: Volume): nat { v.sectorsPerCluster * 512 }

  /** FAT32_ClusterToLba on unsigned 32-bit words. */
  function ClusterToLba(v: Volume, cluster: nat): nat
  {
    (v.clusterStartLba + (cluster - 2) * v.sectorsPerCluster) % WORD32
  }

  function LittleEndian(a: Byte, b: Byte, c: Byte, d: Byte): nat
  {
    a + 0x100 * b + 0x1_0000 * c + 0x100_0000 * d
  }

  /** Where the kernel looks up the entry of a cluster: sector and byte offset, on 32-bit words. */
  function EntryLba(v: Volume, cluster: nat): nat
  {
    (v.fatStartLba + cluster * 4 % WORD32 / SECTOR_SIZE) % WORD32
  }

  function EntryOffset(cluster: nat): (o: nat)
    ensures o + 3 < SECTOR_SIZE
  {
    cluster * 4 % WORD32 % SECTOR_SIZE
  }

  /** The entry the kernel decodes from the sector it read. */
  function DecodeEntry(sector: Sector, cluster: nat): nat
  {
    var o := EntryOffset(cluster);
    LittleEndian(sector[o], sector[o + 1], sector[o + 2], sector[o + 3]) % 0x1000_0000
  }

  // ----- the flat table -----

  /** Byte `k` of the file allocation table as one byte array. */
  function FatByte(sectors: seq<Sector>, v: Volume, k: nat): Byte
    requires v.fatStartLba + k / SECTOR_SIZE < |sectors|
  {
    sectors[v.fatStartLba + k / SECTOR_SIZE][k % SECTOR_SIZE]
  }

  /** The entry of a cluster exists in the table and 32-bit arithmetic reaches it. */
  ghost predicate HasEntry(sectors: seq<Sector>, v: Volume, cluster: nat)
  {
    cluster < END_OF_CHAIN && v.fatStartLba + (4 * cluster + 3) / SECTOR_SIZE < |sectors| <= WORD32
  }

  /** Entry number `cluster` of the table: four bytes, least significant first, top four bits ignored. */
  function FatEntry(sectors: seq<Sector>, v: Volume, cluster: nat): nat
    requires HasEntry(sectors, v, cluster)
  {
    var k := 4 * cluster;
    LittleEndian(FatByte(sectors, v, k), FatByte(sectors, v, k + 1), FatByte(sectors, v, k + 2),
                 FatByte(sectors, v, k + 3)) % 0x1000_0000
  }

  /** The four bytes of an entry lie in one sector. */
  lemma EntryInSector(k: nat, b: nat)
    requires k % 4 == 0 && b < 4
    ensures (k + b) / 512 == k / 512 && (k + b) % 512 == k % 512 + b
  {
    assert k % 512 <= 508;
  }

  /** The one-sector lookup finds the flat table's entry. */
  lemma LookupIsFlat(sectors: seq<Sector>, v: Volume, cluster: nat)
    requires HasEntry(sectors, v, cluster)
    ensures EntryLba(v, cluster) == v.fatStartLba + 4 * cluster / SECTOR_SIZE < |sectors|
    ensures DecodeEntry(sectors[EntryLba(v, cluster)], cluster) == FatEntry(sectors, v, cluster)
  {
    hide LittleEndian;
    var k := 4 * cluster;
    assert k % WORD32 == k;
    EntryInSector(k, 1);
    EntryInSector(k, 2);
    EntryInSector(k, 3);
    assert (k + 3) / SECTOR_SIZE == k / SECTOR_SIZE && (k + 3) % SECTOR_SIZE == k % SECTOR_SIZE + 3;
  }

  /** Round trip: a number written as four bytes, least significant first, at the entry's place in the table is read
      back with its top four bits ignored, by the one-sector lookup and from the flat table; it ends a chain exactly
      when its low 28 bits are 0x0FFFFFF8 or more. */
  lemma EntryRoundTrip(sectors: seq<Sector>, v: Volume, cluster: nat, n: nat)
    requires n < 0x1_0000_0000 && cluster < 0x0FFF_FFF8 && |sectors| <= 0x1_0000_0000
    requires v.fatStartLba + cluster / 128 < |sectors|
    requires var sector, o := sectors[v.fatStartLba + cluster / 128], cluster % 128 * 4;
      && sector[o] == n % 256 && sector[o + 1] == n / 0x100 % 256
      && sector[o + 2] == n / 0x1_0000 % 256 && sector[o + 3] == n / 0x100_0000 % 256
    ensures EntryLba(v, cluster) == v.fatStartLba + cluster / 128
    ensures DecodeEntry(sectors[v.fatStartLba + cluster / 128], cluster) == n % 0x1000_0000
    ensures HasEntry(sectors, v, cluster) && FatEntry(sectors, v, cluster) == n % 0x1000_0000
    ensures FatEntry(sectors, v, cluster) >= END_OF_CHAIN <==> n % 0x1000_0000 >= 0x0FFF_FFF8
  {
    EntryPlace(cluster);
    FourBytes(n);
    LookupIsFlat(sectors, v, cluster);
    hide FatEntry, LittleEndian;
  }

  /** 128 entries of four bytes fill a sector. */
  lemma EntryPlace(cluster: nat)
    requires cluster < 0x0FFF_FFF8
    ensures 4 * cluster / 512 == cluster / 128 && EntryOffset(cluster) == cluster % 128 * 4
    ensures (4 * cluster + 3) / 512 == cluster / 128
  {
    var q, r := cluster / 128, cluster % 128;
    DivUnique(4 * cluster, 512, q, 4 * r);
    DivUnique(4 * cluster + 3, 512, q, 4 * r + 3);
  }

  lemma FourBytes(n: nat)
    requires n < 0x1_0000_0000
    ensures LittleEndian(n % 256, n / 0x100 % 256, n / 0x1_0000 % 256, n / 0x100_0000 % 256) == n
  {
    DivTwice(n, 0x100);
    DivTwice(n, 0x1_0000);
    var p := n / 0x100;
    var q := p / 256;
    var r := q / 256;
    Digits(n % 256, p % 256, q % 256, r, n, p, q);
  }

  lemma Digits(a: Byte, b: Byte, c: Byte, d: nat, n: nat, p: nat, q: nat)
    requires n == 256 * p + a && p == 256 * q + b && q == 256 * d + c && n < 0x1_0000_0000
    ensures d < 256 && d % 256 == d && LittleEndian(a, b, c, d) == n
  {
  }

  lemma DivTwice(n: nat, d: nat)
    requires d > 0
    ensures d * 256 > 0 && n / (d * 256) == n / d / 256
  {
    var q := n / d;
    DivFundamental(n, d);
    DivFundamental(q, 256);
    MulMonotone(q % 256 + 1, 256, d);
    assert n == q / 256 * (d * 256) + (q % 256 * d + n % d);
    DivUnique(n, d * 256, q / 256, q % 256 * d + n % d);
  }

  // ----- chains -----

  /** The cluster is a data cluster whose sectors exist. */
  ghost predicate HasData(sectors: seq<Sector>, v: Volume, cluster: nat)
  {
    && 2 <= cluster < END_OF_CHAIN && 0 < v.sectorsPerCluster < 256
    && v.clusterStartLba + (cluster - 2) * v.sectorsPerCluster + v.sectorsPerCluster <= |sectors| <= WORD32
  }

  /** `chain` is a complete cluster chain: distinct clusters linked by the table up to an end mark, all on the disk,
      with the table in front of the data. */
  ghost predicate IsChain(sectors: seq<Sector>, v: Volume, chain: seq<nat>)
  {
    && 0 < |chain|
    && (forall i, j :: 0 <= i < j < |chain| ==> chain[i] != chain[j])
    && (forall i :: 0 <= i < |chain| ==> ChainEntry(sectors, v, chain, i))
  }

  /** Position `i` of a chain: a data cluster whose table entry names the next one, or ends the chain. */
  ghost predicate ChainEntry(sectors: seq<Sector>, v: Volume, chain: seq<nat>, i: nat)
    requires i < |chain|
  {
    && HasData(sectors, v, chain[i]) && HasEntry(sectors, v, chain[i])
    && v.fatStartLba + 4 * chain[i] / SECTOR_SIZE < v.clusterStartLba
    && if i + 1 < |chain| then FatEntry(sectors, v, chain[i]) == chain[i + 1]
       else FatEntry(sectors, v, chain[i]) >= END_OF_CHAIN
  }

  /** A cluster number that stands for position `m` of the chain, or past its end. */
  ghost predicate At(chain: seq<nat>, m: nat, cluster: nat)
  {
    m <= |chain| && if m < |chain| then cluster == chain[m] else cluster >= END_OF_CHAIN
  }

  lemma EndMark(sectors: seq<Sector>, v: Volume, chain: seq<nat>, m: nat, cluster: nat)
    requires IsChain(sectors, v, chain) && At(chain, m, cluster)
    ensures cluster >= END_OF_CHAIN <==> m == |chain|
  {
    if m < |chain| {
      assert ChainEntry(sectors, v, chain, m);
    }
  }

  /** What the lookup of a chain cluster finds: the next cluster, or an end mark. */
  lemma ChainLookup(sectors: seq<Sector>, v: Volume, chain: seq<nat>, m: nat)
    requires IsChain(sectors, v, chain) && m < |chain|
    ensures ChainEntry(sectors, v, chain, m)
    ensures EntryLba(v, chain[m]) < |sectors| && EntryLba(v, chain[m]) < v.clusterStartLba
    ensures DecodeEntry(sectors[EntryLba(v, chain[m])], chain[m]) == FatEntry(sectors, v, chain[m])
    ensures At(chain, m + 1, FatEntry(sectors, v, chain[m]))
  {
    assert ChainEntry(sectors, v, chain, m);
    hide HasData, FatEntry, DecodeEntry, EntryLba;
    LookupIsFlat(sectors, v, chain[m]);
  }

  lemma FirstOfChain(sectors: seq<Sector>, v: Volume, chain: seq<nat>)
    requires IsChain(sectors, v, chain)
    ensures |chain| > 0
  {
  }

  lemma LbaOfCluster(sectors: seq<Sector>, v: Volume, cluster: nat)
    requires HasData(sectors, v, cluster)
    ensures ClusterToLba(v, cluster) == v.clusterStartLba + (cluster - 2) * v.sectorsPerCluster
    ensures ClusterToLba(v, cluster) + v.sectorsPerCluster <= |sectors| <= WORD32
  {
    var x := v.clusterStartLba + (cluster - 2) * v.sectorsPerCluster;
    assert (cluster - 2) * v.sectorsPerCluster >= 0;
    assert 0 <= x < WORD32;
  }

  /** Distinct clusters occupy disjoint sector ranges. */
  lemma ClustersDisjoint(sectors: seq<Sector>, v: Volume, a: nat, b: nat)
    requires HasData(sectors, v, a) && HasData(sectors, v, b) && a < b
    ensures ClusterToLba(v, a) + v.sectorsPerCluster <= ClusterToLba(v, b)
  {
    hide ClusterToLba;
    LbaOfCluster(sectors, v, a);
    LbaOfCluster(sectors, v, b);
    MulMonotone(a - 1, b - 2, v.sectorsPerCluster);
    MulNext(a - 2, v.sectorsPerCluster);
  }

  // ----- the bytes of a file -----

  /** The bytes of `n` consecutive sectors. */
  function SectorBytes(sectors: seq<Sector>, lba: nat, n: nat): (bytes: seq<Byte>)
    requires lba + n <= |sectors|
    ensures |bytes| == n * 512
  {
    if n == 0 then [] else SectorBytes(sectors, lba, n - 1) + sectors[lba + n - 1]
  }

  /** Where the bytes of the cluster at chain position `m` begin. */
  function ClusterStart(v: Volume, m: nat): nat { m * ClusterSize(v) }

  lemma StartNext(v: Volume, m: nat)
    ensures ClusterStart(v, m + 1) == ClusterStart(v, m) + ClusterSize(v)
  {
  }

  lemma StartMonotone(v: Volume, m: nat, n: nat)
    requires m <= n
    ensures ClusterStart(v, m) <= ClusterStart(v, n)
  {
    MulMonotone(m, n, ClusterSize(v));
  }

  /** Chain position of the cluster that holds a byte offset. */
  function ClusterIndex(v: Volume, offset: nat): nat
    requires ClusterSize(v) > 0
  {
    DivFundamental(offset, ClusterSize(v));
    offset / ClusterSize(v)
  }

  lemma ClusterIndexInside(v: Volume, offset: nat)
    requires ClusterSize(v) > 0
    ensures Inside(v, ClusterIndex(v, offset), offset)
  {
    DivFundamental(offset, ClusterSize(v));
  }

  /** Chain position `q` lies in the cluster at position `m`. */
  ghost predicate Inside(v: Volume, m: nat, q: nat)
  {
    ClusterStart(v, m) <= q < ClusterStart(v, m) + ClusterSize(v)
  }

  /** The first `q` bytes use up `m` clusters, the last of them perhaps in part. */
  ghost predicate Consumed(v: Volume, m: nat, q: nat)
  {
    m > 0 && ClusterStart(v, m - 1) < q <= ClusterStart(v, m)
  }

  /** The bytes of the first `k` clusters of a chain, one after the other. */
  function ChainBytes(sectors: seq<Sector>, v: Volume, chain: seq<nat>, k: nat): (bytes: seq<Byte>)
    requires k <= |chain| && forall i :: 0 <= i < |chain| ==> HasData(sectors, v, chain[i])
    ensures |bytes| == ClusterStart(v, k)
  {
    if k == 0 then [] else
      LbaOfCluster(sectors, v, chain[k - 1]);
      StartNext(v, k - 1);
      ChainBytes(sectors, v, chain, k - 1) + SectorBytes(sectors, ClusterToLba(v, chain[k - 1]), v.sectorsPerCluster)
  }

  /** The whole chain as one flat sequence. A file is its first `size` bytes. */
  function Flat(sectors: seq<Sector>, v: Volume, chain: seq<nat>): (bytes: seq<Byte>)
    requires IsChain(sectors, v, chain)
    ensures |bytes| == ClusterStart(v, |chain|)
  {
    ChainHasData(sectors, v, chain);
    ChainBytes(sectors, v, chain, |chain|)
  }

  lemma {:induction false} SectorAt(sectors: seq<Sector>, lba: nat, n: nat, i: nat)
    requires lba + n <= |sectors| && i < n
    ensures i * 512 + SECTOR_SIZE <= n * 512
    ensures SectorBytes(sectors, lba, n)[i * 512..i * 512 + SECTOR_SIZE] == sectors[lba + i]
  {
    var bytes := SectorBytes(sectors, lba, n);
    if i < n - 1 {
      SectorAt(sectors, lba, n - 1, i);
      assert bytes[i * 512..i * 512 + SECTOR_SIZE]
          == SectorBytes(sectors, lba, n - 1)[i * 512..i * 512 + SECTOR_SIZE];
    }
  }

  lemma {:induction false} ClusterAt(sectors: seq<Sector>, v: Volume, chain: seq<nat>, k: nat, m: nat)
    requires m < k <= |chain| && forall i :: 0 <= i < |chain| ==> HasData(sectors, v, chain[i])
    ensures ClusterToLba(v, chain[m]) + v.sectorsPerCluster <= |sectors|
    ensures ClusterStart(v, m) + ClusterSize(v) <= ClusterStart(v, k)
    ensures ChainBytes(sectors, v, chain, k)[ClusterStart(v, m)..ClusterStart(v, m) + ClusterSize(v)]
         == SectorBytes(sectors, ClusterToLba(v, chain[m]), v.sectorsPerCluster)
  {
    hide ClusterToLba, HasData, ClusterStart;
    LbaOfCluster(sectors, v, chain[k - 1]);
    StartNext(v, k - 1);
    var before := ChainBytes(sectors, v, chain, k - 1);
    var last := SectorBytes(sectors, ClusterToLba(v, chain[k - 1]), v.sectorsPerCluster);
    assert ChainBytes(sectors, v, chain, k) == before + last;
    hide ChainBytes;
    if m < k - 1 {
      ClusterAt(sectors, v, chain, k - 1, m);
      SliceOfFirst(before, last, ClusterStart(v, m), ClusterStart(v, m) + ClusterSize(v));
    } else {
      SliceOfSecond(before, last);
    }
  }

  /** Bytes of one sector are consecutive bytes of the chain. */
  lemma SectorSlice(sectors: seq<Sector>, v: Volume, chain: seq<nat>, m: nat, i: nat, a: nat, b: nat)
    requires IsChain(sectors, v, chain) && m < |chain| && i < v.sectorsPerCluster && a <= b <= SECTOR_SIZE
    ensures var start := ClusterStart(v, m) + i * 512;
      && ClusterToLba(v, chain[m]) + i < |sectors|
      && start + b <= |Flat(sectors, v, chain)|
      && Flat(sectors, v, chain)[start + a..start + b] == sectors[ClusterToLba(v, chain[m]) + i][a..b]
  {
    hide ClusterToLba, IsChain, HasData, SectorBytes, ChainBytes, ClusterStart;
    assert forall k :: 0 <= k < |chain| ==> HasData(sectors, v, chain[k]) by { ChainHasData(sectors, v, chain); }
    ClusterAt(sectors, v, chain, |chain|, m);
    var lba, base, flat := ClusterToLba(v, chain[m]), ClusterStart(v, m), Flat(sectors, v, chain);
    SectorAt(sectors, lba, v.sectorsPerCluster, i);
    var cluster := flat[base..base + ClusterSize(v)];
    var s := i * 512;
    assert cluster[s..s + SECTOR_SIZE] == sectors[lba + i];
    SliceOfSlice(flat, base, ClusterSize(v), s + a, s + b);
    SliceOfSlice(cluster, s, SECTOR_SIZE, a, b);
  }

  /** `part` is the stretch of `flat` that begins at `start`. */
  ghost predicate Delivered(flat: seq<Byte>, start: nat, part: seq<Byte>)
  {
    start + |part| <= |flat| && part == flat[start..start + |part|]
  }

  lemma DeliveredMore(flat: seq<Byte>, start: nat, part: seq<Byte>, more: seq<Byte>)
    requires Delivered(flat, start, part) && Delivered(flat, start + |part|, more)
    ensures Delivered(flat, start, part + more)
  {
  }

  /** A stretch of one sector is delivered from its place in the chain. */
  lemma SectorDelivered(sectors: seq<Sector>, v: Volume, chain: seq<nat>, m: nat, base: nat, i: nat, a: nat, b: nat)
    requires IsChain(sectors, v, chain) && m < |chain| && i < v.sectorsPerCluster && a <= b <= SECTOR_SIZE
    requires base == ClusterStart(v, m)
    ensures ClusterToLba(v, chain[m]) + i < |sectors|
    ensures Delivered(Flat(sectors, v, chain), base + i * 512 + a, sectors[ClusterToLba(v, chain[m]) + i][a..b])
  {
    hide Flat, IsChain, ClusterToLba, ClusterStart;
    SectorSlice(sectors, v, chain, m, i, a, b);
  }

  lemma SliceOfSlice<T>(s: seq<T>, p: nat, n: nat, a: nat, b: nat)
    requires a <= b <= n && p + n <= |s|
    ensures s[p..p + n][a..b] == s[p + a..p + b]
  {
    var x, y := s[p..p + n][a..b], s[p + a..p + b];
    forall k | 0 <= k < |y|
      ensures x[k] == y[k]
    {
    }
  }

  lemma SliceOfFirst<T>(x: seq<T>, y: seq<T>, a: nat, b: nat)
    requires a <= b <= |x|
    ensures (x + y)[a..b] == x[a..b]
  {
  }

  lemma SliceOfSecond<T>(x: seq<T>, y: seq<T>)
    ensures (x + y)[|x|..|x| + |y|] == y
  {
  }

  lemma ChainHasData(sectors: seq<Sector>, v: Volume, chain: seq<nat>)
    requires IsChain(sectors, v, chain)
    ensures forall k :: 0 <= k < |chain| ==> HasData(sectors, v, chain[k])
    ensures 0 < v.sectorsPerCluster < 256 && |sectors| <= WORD32
  {
    hide FatEntry, HasEntry;
    assert ChainEntry(sectors, v, chain, 0);
    assert HasData(sectors, v, chain[0]);
    hide HasData;
    forall k | 0 <= k < |chain|
      ensures HasData(sectors, v, chain[k])
    {
      assert ChainEntry(sectors, v, chain, k);
    }
  }
}
