/** Reading and seeking in files of a FAT32 volume on a disk whose reads may fail. */
module Fat32 {
  import opened Arithmetic
  import opened FatVolume

  /** A disk: the n-th read fails when `fails(n)` says so, or when the sector does not exist. */
  class Disk {
    const sectors: seq<Sector>
    const fails: nat -> bool
    var count: nat

    // The sectors asked for so far.
    ghost var log: seq<nat>

    ghost predicate Valid()
      reads this
    {
      |log| == count
    }

    constructor (sectors: seq<Sector>, fails: nat -> bool)
      ensures Valid() && this.sectors == sectors && this.fails == fails && count == 0
    {
      this.sectors, this.fails, count, log := sectors, fails, 0, [];
    }

    method Read(lba: nat) returns (ok: bool, buffer: Sector)
      requires Valid()
      modifies this
      ensures Valid() && count == old(count) + 1 && log == old(log) + [lba]
      ensures ok <==> !fails(old(count)) && lba < |sectors|
      ensures ok ==> buffer == sectors[lba]
    {
      ok := !fails(count) && lba < |sectors|;
      count, log := count + 1, log + [lba];
      buffer := if ok then sectors[lba] else seq(512, i => 0);
    }
  }

  class FileHandle {
    var firstCluster: nat
    var size: nat
    var currentCluster: nat
    var currentOffset: nat
    var isDirectory: bool

    /** The handle FAT32_Open makes from a directory entry it found. */
    constructor (attributes: nat, firstClusterHigh: nat, firstClusterLow: nat, size: nat)
      requires firstClusterLow < 0x1_0000
      ensures firstCluster == currentCluster == firstClusterHigh * 0x1_0000 + firstClusterLow
      ensures this.size == size && currentOffset == 0 && (isDirectory <==> attributes / 0x10 % 2 == 1)
    {
      this.isDirectory := attributes / 0x10 % 2 != 0;
      this.size := size;
      this.firstCluster := firstClusterHigh * 0x1_0000 + firstClusterLow;
      this.currentCluster := firstClusterHigh * 0x1_0000 + firstClusterLow;
      this.currentOffset := 0;
    }
  }

  function Min(a: nat, b: nat): nat { if a < b then a else b }

  function Max(a: int, b: int): int { if a < b then b else a }

  class Driver {
    const disk: Disk
    const volume: Volume

    constructor (disk: Disk, volume: Volume)
      ensures this.disk == disk && this.volume == volume
    {
      this.disk, this.volume := disk, volume;
    }

    /** FAT32_NextCluster: the successor in the chain, or an end mark when the lookup fails. */
    method NextCluster(cluster: nat, ghost chain: seq<nat>, ghost m: nat) returns (next: nat)
      requires disk.Valid() && IsChain(disk.sectors, volume, chain) && m < |chain| && cluster == chain[m]
      modifies disk
      ensures disk.Valid() && disk.count == old(disk.count) + 1
      ensures disk.log == old(disk.log) + [EntryLba(volume, cluster)]
      ensures EntryLba(volume, cluster) < volume.clusterStartLba
      ensures At(chain, if disk.fails(old(disk.count)) then |chain| else m + 1, next)
      ensures ChainEntry(disk.sectors, volume, chain, m)
      ensures !disk.fails(old(disk.count)) ==> next == FatEntry(disk.sectors, volume, cluster)
    {
      var fatIndex := cluster * 4 % WORD32;
      var lba, o := (volume.fatStartLba + fatIndex / SECTOR_SIZE) % WORD32, fatIndex % SECTOR_SIZE;
      assert lba == EntryLba(volume, cluster) && o == EntryOffset(cluster);
      ChainLookup(disk.sectors, volume, chain, m);
      hide IsChain, ChainEntry, HasData, HasEntry, LittleEndian, FatEntry, EntryLba, EntryOffset;
      var ok, buffer := disk.Read(lba);
      if !ok {
        return 0xFFFF_FFFF;
      }
      next := LittleEndian(buffer[o], buffer[o + 1], buffer[o + 2], buffer[o + 3]) % 0x1000_0000;
      assert next == DecodeEntry(buffer, cluster);
    }

    /** Read one sector; pass over it, or copy what is wanted of it. */
    method ReadSector(handle: FileHandle, lba: nat, i: nat, skippedBytes: nat, remaining: nat,
                      ghost chain: seq<nat>, ghost m: nat, ghost base: nat)
      returns (ok: bool, more: seq<Byte>, skip: nat)
      requires disk.Valid() && IsChain(disk.sectors, volume, chain) && m < |chain| && base == ClusterStart(volume, m)
      requires lba == ClusterToLba(volume, chain[m]) && i < volume.sectorsPerCluster
      modifies disk, handle`currentOffset
      ensures disk.Valid() && disk.count == old(disk.count) + 1 && disk.log == old(disk.log) + [lba + i]
      ensures ok <==> !disk.fails(old(disk.count))
      ensures handle.currentOffset == old(handle.currentOffset) + |more|
      ensures !ok ==> more == []
      ensures ok ==>
        if skippedBytes >= SECTOR_SIZE then more == [] && skip == skippedBytes - SECTOR_SIZE
        else |more| == Min(SECTOR_SIZE - skippedBytes, remaining) && skip == 0 &&
             Delivered(Flat(disk.sectors, volume, chain), base + i * 512 + skippedBytes, more)
    {
      hide Flat, IsChain, ChainEntry, HasEntry, FatEntry, ClusterToLba, Delivered, ClusterStart;
      var read, tmpBuffer := disk.Read(lba + i);
      SectorDelivered(disk.sectors, volume, chain, m, base, i, 0, 0);
      if !read {
        return false, [], 0;
      }
      if skippedBytes >= SECTOR_SIZE {
        return true, [], skippedBytes - SECTOR_SIZE;
      }
      var toCopy := Min(SECTOR_SIZE - skippedBytes, remaining);
      SectorDelivered(disk.sectors, volume, chain, m, base, i, skippedBytes, skippedBytes + toCopy);
      handle.currentOffset := handle.currentOffset + toCopy;
      return true, tmpBuffer[skippedBytes..skippedBytes + toCopy], 0;
    }

    /** The sector loop of one cluster: skip, then copy until the cluster or the request is exhausted. */
    method ReadCluster(handle: FileHandle, cluster: nat, skip: nat, request: nat,
                       ghost chain: seq<nat>, ghost m: nat, ghost base: nat)
      returns (part: seq<Byte>, ok: bool)
      requires disk.Valid() && IsChain(disk.sectors, volume, chain) && m < |chain| && cluster == chain[m]
      requires base == ClusterStart(volume, m) && skip < ClusterSize(volume) && 0 < request
      modifies disk, handle`currentOffset
      ensures disk.Valid() && old(disk.count) < disk.count && old(disk.log) <= disk.log
      ensures handle.currentOffset == old(handle.currentOffset) + |part|
      ensures Delivered(Flat(disk.sectors, volume, chain), base + skip, part)
      ensures if ok then |part| == Min(request, ClusterSize(volume) - skip)
                    else |part| < Min(request, ClusterSize(volume) - skip)
      ensures !ok ==> skip + |part| == Max(skip, (disk.log[disk.count - 1] - ClusterToLba(volume, cluster)) * 512)
      ensures ok <==> !disk.fails(disk.count - 1)
      ensures !FailsIn(disk, old(disk.count), disk.count - 1)
      ensures forall k :: old(disk.count) <= k < disk.count ==> InCluster(volume, cluster, disk.log[k])
    {
      hide Flat, IsChain, ChainEntry, HasEntry, FatEntry, ClusterToLba, Delivered, ClusterStart, InCluster;
      ghost var flat := Flat(disk.sectors, volume, chain);
      var lba := ClusterToLba(volume, cluster);
      part, ok := [], true;
      var i, skippedBytes, remaining := 0, skip, request;
      DeliveredNothing(disk.sectors, volume, chain, m, base, skip);
      while i < volume.sectorsPerCluster && remaining > 0
        invariant disk.Valid() && i <= volume.sectorsPerCluster && 0 <= remaining == request - |part|
        invariant handle.currentOffset == old(handle.currentOffset) + |part|
        invariant i == 0 ==> part == []
        invariant remaining > 0 ==> skip + |part| == i * 512 + skippedBytes
        invariant skippedBytes == 0 || (i * 512 + skippedBytes < ClusterSize(volume) && part == [])
        invariant skip + |part| <= ClusterSize(volume) && Delivered(flat, base + skip, part)
        invariant disk.count == old(disk.count) + i && old(disk.log) <= disk.log
        invariant forall k :: old(disk.count) <= k < disk.count ==> !disk.fails(k)
        invariant forall k :: old(disk.count) <= k < disk.count ==> InCluster(volume, cluster, disk.log[k])
      {
        var more;
        ok, more, skippedBytes := ReadSector(handle, lba, i, skippedBytes, remaining, chain, m, base);
        SectorInCluster(volume, cluster, i);
        if !ok {
          return;
        }
        if more != [] {
          DeliveredMore(flat, base + skip, part, more);
        }
        part := part + more;
        remaining := remaining - |more|;
        i := i + 1;
      }
      ok := true;
    }

    /** One round of the cluster loop: the cluster's sectors, then the lookup of its successor. */
    method ReadStep(handle: FileHandle, cluster: nat, skip: nat, request: nat, ghost chain: seq<nat>, ghost m: nat)
      returns (part: seq<Byte>, ok: bool, next: nat, ghost m': nat)
      requires disk.Valid() && IsChain(disk.sectors, volume, chain) && m < |chain| && cluster == chain[m]
      requires skip < ClusterSize(volume) && 0 < request && handle.currentCluster == cluster
      modifies disk, handle`currentOffset, handle`currentCluster
      ensures disk.Valid() && old(disk.count) < disk.count && old(disk.log) <= disk.log
      ensures handle.currentOffset == old(handle.currentOffset) + |part|
      ensures Delivered(Flat(disk.sectors, volume, chain), ClusterStart(volume, m) + skip, part)
      ensures |part| <= Min(request, ClusterSize(volume) - skip)
      ensures handle.currentCluster == if ok then next else cluster
      ensures !ok ==> m' == m && |part| < Min(request, ClusterSize(volume) - skip)
      ensures !ok ==> LastFailed(disk) && LastData(disk, volume) && FailedAt(disk, volume, cluster, skip, |part|)
      ensures !FailsIn(disk, old(disk.count), disk.count - 1)
      ensures ok ==> |part| == Min(request, ClusterSize(volume) - skip) && At(chain, m', next)
      ensures ok && LastFailed(disk) ==> m' == |chain| && !LastData(disk, volume)
      ensures ok && !LastFailed(disk) ==> m' == m + 1
      ensures OnlyChainSectors(disk.log, volume, chain, old(disk.count))
    {
      hide Flat, IsChain, ChainEntry, HasEntry, FatEntry;
      hide ClusterToLba, EntryLba, Delivered, ClusterStart, HasData, InCluster;
      part, ok := ReadCluster(handle, cluster, skip, request, chain, m, ClusterStart(volume, m));
      ghost var mid := disk.count;
      ClusterSectors(disk.sectors, volume, chain, m);
      if !ok {
        return part, false, 0, m;
      }
      next := NextCluster(cluster, chain, m);
      handle.currentCluster := next;
      m' := if LastFailed(disk) then |chain| else m + 1;
    }

    /** The cluster loop. `m` is the chain position of the handle's cluster, before and after. */
    method ReadChain(handle: FileHandle, request: nat, ghost chain: seq<nat>, ghost m0: nat)
      returns (out: seq<Byte>, ghost m: nat)
      requires disk.Valid() && IsChain(disk.sectors, volume, chain) && At(chain, m0, handle.currentCluster)
      requires request > 0 && ClusterSize(volume) > 0
      modifies disk, handle`currentOffset, handle`currentCluster
      ensures disk.Valid() && old(disk.count) <= disk.count && old(disk.log) <= disk.log
      ensures OnlyChainSectors(disk.log, volume, chain, old(disk.count))
      ensures handle.currentOffset == old(handle.currentOffset) + |out| && At(chain, m, handle.currentCluster)
      ensures m0 == |chain| ==>
        out == [] && m == m0 && disk.count == old(disk.count) && handle.currentCluster == old(handle.currentCluster)
      ensures !FailsIn(disk, old(disk.count), disk.count - 1) && (m0 < |chain| ==> old(disk.count) < disk.count)
      ensures m0 < |chain| ==>
        var start := ClusterStart(volume, m0) + old(handle.currentOffset) % ClusterSize(volume);
        ReadOutcome(disk, volume, chain, start, request, out, m)
    {
      hide Flat, IsChain, ChainEntry, HasEntry, FatEntry, ClusterToLba, EntryLba;
      hide Delivered, ClusterStart, HasData, InCluster, Inside, Consumed, OnlyChainSectors;
      out, m := [], m0;
      var cluster := handle.currentCluster;
      var remaining := request;
      ghost var skip := handle.currentOffset % ClusterSize(volume);
      var skippedBytes := handle.currentOffset % ClusterSize(volume);
      ghost var start := ClusterStart(volume, m0) + skip;
      ReadNothing(disk, volume, chain, m0, skip, request);
      while cluster < END_OF_CHAIN && remaining > 0
        invariant disk.Valid() && old(disk.log) <= disk.log
        invariant OnlyChainSectors(disk.log, volume, chain, old(disk.count))
        invariant handle.currentCluster == cluster && At(chain, m, cluster)
        invariant 0 <= remaining == request - |out| && handle.currentOffset == old(handle.currentOffset) + |out|
        invariant skippedBytes < ClusterSize(volume)
        invariant m0 == |chain| ==>
          m == m0 && out == [] && disk.count == old(disk.count) && cluster == old(handle.currentCluster)
        invariant m == m0 ==> out == [] && (m0 < |chain| ==> skippedBytes == skip)
        invariant m == m0 || old(disk.count) < disk.count
        invariant remaining == 0 || m == |chain| || !FailsIn(disk, old(disk.count), disk.count)
        invariant !FailsIn(disk, old(disk.count), disk.count - 1)
        invariant m0 < |chain| && m != m0 ==> skippedBytes == 0
        invariant m0 < |chain| && (remaining == 0 || m == |chain|) ==>
          ReadOutcome(disk, volume, chain, start, request, out, m)
        invariant m0 < |chain| && m < |chain| && remaining > 0 ==>
          && Delivered(Flat(disk.sectors, volume, chain), start, out)
          && start + |out| == ClusterStart(volume, m) + skippedBytes
        decreases |chain| - m
      {
        ghost var was, log := m, disk.log;
        var part, ok;
        part, ok, cluster, m := ReadStep(handle, cluster, skippedBytes, remaining, chain, m);
        MoreChainSectors(log, disk.log, volume, chain, old(disk.count));
        StepOutcome(disk, volume, chain, start, request, out, part, ok, was, m, skippedBytes);
        out := out + part;
        remaining := remaining - |part|;
        if !ok {
          return;
        }
        skippedBytes := 0;
      }
      EndMark(disk.sectors, volume, chain, m, cluster);
    }

    /** FAT32_Read. `m` is the chain position of the handle's cluster, before and after. The bytes come from the
        position the handle's cluster and offset stand for; for a coherent handle that is the file offset itself. */
    method Read(handle: FileHandle, bytesCount: nat, ghost chain: seq<nat>, ghost m0: nat)
      returns (out: seq<Byte>, ghost m: nat)
      requires disk.Valid() && FileOn(disk.sectors, volume, chain, handle.size, handle.currentCluster, m0)
      requires handle.currentOffset <= handle.size
      modifies disk, handle`currentOffset, handle`currentCluster
      ensures disk.Valid() && old(disk.log) <= disk.log && OnlyChainSectors(disk.log, volume, chain, old(disk.count))
      ensures handle.currentOffset == old(handle.currentOffset) + |out| <= handle.size
      ensures FileOn(disk.sectors, volume, chain, handle.size, handle.currentCluster, m)
      ensures var request := Min(bytesCount, handle.size - old(handle.currentOffset));
        if handle.isDirectory || request == 0 || m0 == |chain|
        then out == [] && m == m0 && disk.count == old(disk.count)
             && handle.currentCluster == old(handle.currentCluster)
        else old(disk.count) < disk.count && ClusterSize(volume) > 0 && ReadOutcome(disk, volume, chain,
               ClusterStart(volume, m0) + old(handle.currentOffset) % ClusterSize(volume), request, out, m)
      ensures !FailsIn(disk, old(disk.count), disk.count - 1)
    {
      hide Flat, IsChain, ChainEntry, HasEntry, FatEntry, ReadOutcome, ClusterStart, HasData, OnlyChainSectors;
      out, m := [], m0;
      NoSectorsYet(disk.log, volume, chain, disk.count);
      if handle.isDirectory {
        return;
      }
      var remaining := Min(bytesCount, handle.size - handle.currentOffset);
      if remaining == 0 {
        return;
      }
      ChainHasData(disk.sectors, volume, chain);
      ghost var start := ClusterStart(volume, m0) + handle.currentOffset % ClusterSize(volume);
      out, m := ReadChain(handle, remaining, chain, m0);
      if m0 < |chain| {
        OutcomeBounded(disk, volume, chain, start, remaining, out, m);
      }
    }

    /** Follow the chain from its first cluster; the walk ends early at an end mark or a failed lookup. */
    method WalkTo(first: nat, clusterIndex: nat, ghost chain: seq<nat>) returns (ok: bool, cluster: nat)
      requires disk.Valid() && IsChain(disk.sectors, volume, chain) && first == chain[0]
      modifies disk
      ensures disk.Valid() && old(disk.log) <= disk.log && OnlyChainSectors(disk.log, volume, chain, old(disk.count))
      ensures ok <==> clusterIndex < |chain| && !(disk.count > old(disk.count) && LastFailed(disk))
      ensures ok ==> cluster == chain[clusterIndex]
      ensures forall k :: old(disk.count) <= k < disk.count - 1 ==> !disk.fails(k)
    {
      hide IsChain, ChainEntry, HasEntry, FatEntry, HasData, ClusterToLba, EntryLba, InCluster;
      cluster := first;
      FirstOfChain(disk.sectors, volume, chain);
      for i := 0 to clusterIndex
        invariant disk.Valid() && i < |chain| && cluster == chain[i]
        invariant old(disk.log) <= disk.log && OnlyChainSectors(disk.log, volume, chain, old(disk.count))
        invariant disk.count == old(disk.count) + i
        invariant forall k :: old(disk.count) <= k < disk.count ==> !disk.fails(k)
      {
        ClusterSectors(disk.sectors, volume, chain, i);
        ghost var here := if disk.fails(disk.count) then |chain| else i + 1;
        cluster := NextCluster(cluster, chain, i);
        EndMark(disk.sectors, volume, chain, here, cluster);
        if cluster >= END_OF_CHAIN {
          return false, cluster;
        }
      }
      return true, cluster;
    }

    /** FAT32_Seek: 0 also stands for failure, which leaves the handle alone. */
    method Seek(handle: FileHandle, offset: nat, ghost chain: seq<nat>, ghost m0: nat)
      returns (result: nat, ghost m: nat)
      requires disk.Valid() && FileOn(disk.sectors, volume, chain, handle.size, handle.currentCluster, m0)
      requires if handle.size > 0 then handle.firstCluster == chain[0] else handle.currentOffset == 0
      modifies disk, handle`currentOffset, handle`currentCluster
      ensures disk.Valid() && old(disk.log) <= disk.log && OnlyChainSectors(disk.log, volume, chain, old(disk.count))
      ensures FileOn(disk.sectors, volume, chain, handle.size, handle.currentCluster, m)
      ensures handle.size > 0 ==> ClusterSize(volume) > 0
      ensures var moved := 0 < handle.size && offset <= handle.size && offset != old(handle.currentOffset)
                && ClusterIndex(volume, offset) < |chain| && !(disk.count > old(disk.count) && LastFailed(disk));
        if moved
        then result == offset && handle.currentOffset == offset && m == ClusterIndex(volume, offset) < |chain|
             && handle.currentCluster == chain[m]
        else result == (if offset <= handle.size && offset == old(handle.currentOffset) then offset else 0)
             && m == m0 && handle.currentOffset == old(handle.currentOffset)
             && handle.currentCluster == old(handle.currentCluster)
    {
      if handle.size > 0 {
        ChainHasData(disk.sectors, volume, chain);
        assert ClusterSize(volume) > 0;
      }
      hide IsChain, ChainEntry, HasEntry, FatEntry, HasData, OnlyChainSectors, ClusterSize, ClusterIndex, LastFailed;
      m := m0;
      NoSectorsYet(disk.log, volume, chain, disk.count);
      if offset > handle.size {
        return 0, m;
      }
      if offset == handle.currentOffset {
        return offset, m;
      }
      var clusterIndex := ClusterIndex(volume, offset);
      var ok, currentCluster := WalkTo(handle.firstCluster, clusterIndex, chain);
      if !ok {
        return 0, m;
      }
      handle.currentCluster := currentCluster;
      handle.currentOffset := offset;
      return offset, clusterIndex;
    }

    /** Seek, then read. `sought` is the number of disk reads when the seek was done; it succeeds exactly when the
        handle already stood at the offset or no lookup failed. Then the bytes delivered are the file's from that
        offset, all that were asked for unless a disk read failed. */
    method SeekThenRead(handle: FileHandle, offset: nat, bytesCount: nat, ghost chain: seq<nat>, ghost m0: nat)
      returns (ok: bool, out: seq<Byte>, ghost sought: nat)
      requires disk.Valid() && FileOn(disk.sectors, volume, chain, handle.size, handle.currentCluster, m0)
      requires offset < handle.size && handle.firstCluster == chain[0] && !handle.isDirectory
      requires offset == handle.currentOffset ==> Coherent(volume, chain, handle.size, handle.currentOffset, m0)
      modifies disk, handle`currentOffset, handle`currentCluster
      ensures disk.Valid() && old(disk.count) <= sought <= disk.count
      ensures ok <==> offset == old(handle.currentOffset) || sought == old(disk.count) || !disk.fails(sought - 1)
      ensures !ok ==> out == [] && handle.currentOffset == old(handle.currentOffset)
                      && handle.currentCluster == old(handle.currentCluster)
      ensures ok ==> handle.currentOffset == offset + |out| && Delivered(Flat(disk.sectors, volume, chain), offset, out)
      ensures ok ==> |out| <= Min(bytesCount, handle.size - offset)
      ensures ok && |out| < Min(bytesCount, handle.size - offset) ==> LastFailed(disk)
    {
      hide IsChain, ChainEntry, HasEntry, FatEntry, HasData, Flat, ReadOutcome, OnlyChainSectors;
      hide ClusterSize, ClusterStart, Delivered, ClusterIndex, Inside;
      ChainClusterSize(disk.sectors, volume, chain);
      SeekReach(disk.sectors, volume, chain, handle.size, offset);
      var _, m := Seek(handle, offset, chain, m0);
      sought := disk.count;
      ok := handle.currentOffset == offset;
      out := [];
      if ok {
        ghost var m1;
        out, m1 := Read(handle, bytesCount, chain, m);
        ReadFromOffset(disk, volume, chain, handle.size, offset, Min(bytesCount, handle.size - offset), out, m, m1);
      }
    }

    /** Two reads in a row. When the first one ends without a failure on a cluster boundary or at the end of the file,
        the second continues it. When it stops inside a cluster and short of the end, the second does not continue it:
        its bytes come from a whole cluster further on, or, when there is no further cluster, nothing comes although the
        file goes on. `mid` is the number of disk reads in between. */
    method ReadTwice(handle: FileHandle, first: nat, second: nat, ghost chain: seq<nat>, ghost m0: nat)
      returns (out: seq<Byte>, more: seq<Byte>, ghost mid: nat)
      requires disk.Valid() && FileOn(disk.sectors, volume, chain, handle.size, handle.currentCluster, m0)
      requires handle.currentOffset < handle.size && !handle.isDirectory && first > 0
      requires Coherent(volume, chain, handle.size, handle.currentOffset, m0)
      modifies disk, handle`currentOffset, handle`currentCluster
      ensures disk.Valid() && old(disk.count) <= mid <= disk.count && ClusterSize(volume) > 0
      ensures Delivered(Flat(disk.sectors, volume, chain), old(handle.currentOffset), out)
      ensures !FailsIn(disk, old(disk.count), mid) ==>
        var q := old(handle.currentOffset) + |out|;
        if InStep(volume, handle.size, q) then Delivered(Flat(disk.sectors, volume, chain), q, more)
        else OutOfStep(disk, volume, chain, handle.size, q, second, more, mid)
      ensures handle.currentOffset == old(handle.currentOffset) + |out| + |more|
    {
      hide IsChain, ChainEntry, HasEntry, FatEntry, HasData, Flat, OnlyChainSectors;
      hide ClusterSize, ClusterStart, ReadOutcome, Delivered, Coherent, OutOfStep, InStep, Slipped;
      ghost var m, m';
      out, m := ReadInPlace(handle, first, chain, m0);
      mid := disk.count;
      ghost var q := handle.currentOffset;
      more, m' := Read(handle, second, chain, m);
      if Slipped(disk.sectors, volume, chain, handle.size, q, m) {
        SecondRead(disk, volume, chain, handle.size, q, m, second, more, m', mid);
      } else if Coherent(volume, chain, handle.size, q, m) {
        NextRead(disk, volume, chain, handle.size, q, m, second, more, m');
      }
    }

    /** A read through a coherent handle, and where it leaves the handle when no read failed. */
    method ReadInPlace(handle: FileHandle, bytesCount: nat, ghost chain: seq<nat>, ghost m0: nat)
      returns (out: seq<Byte>, ghost m: nat)
      requires disk.Valid() && FileOn(disk.sectors, volume, chain, handle.size, handle.currentCluster, m0)
      requires handle.currentOffset < handle.size && !handle.isDirectory && bytesCount > 0
      requires Coherent(volume, chain, handle.size, handle.currentOffset, m0)
      modifies disk, handle`currentOffset, handle`currentCluster
      ensures disk.Valid() && old(disk.count) < disk.count && ClusterSize(volume) > 0
      ensures handle.currentOffset == old(handle.currentOffset) + |out| <= handle.size
      ensures FileOn(disk.sectors, volume, chain, handle.size, handle.currentCluster, m)
      ensures Delivered(Flat(disk.sectors, volume, chain), old(handle.currentOffset), out)
      ensures !FailsIn(disk, old(disk.count), disk.count) ==>
        if InStep(volume, handle.size, handle.currentOffset)
        then Coherent(volume, chain, handle.size, handle.currentOffset, m)
             && !Slipped(disk.sectors, volume, chain, handle.size, handle.currentOffset, m)
        else Slipped(disk.sectors, volume, chain, handle.size, handle.currentOffset, m)
    {
      hide IsChain, ChainEntry, HasEntry, FatEntry, HasData, Flat, OnlyChainSectors;
      hide ClusterSize, ClusterStart, ReadOutcome, Delivered, Coherent, InStep, Slipped;
      ChainClusterSize(disk.sectors, volume, chain);
      CoherentInside(volume, chain, handle.size, handle.currentOffset, m0);
      ghost var offset := handle.currentOffset;
      out, m := Read(handle, bytesCount, chain, m0);
      PlaceAfterRead(disk, volume, chain, handle.size, offset, Min(bytesCount, handle.size - offset), out, m0, m);
    }

    /** The shell reading a file of 1000 bytes in one cluster of two sectors: after 512 bytes nothing more comes. */
    method LostTail(handle: FileHandle, ghost chain: seq<nat>) returns (out: seq<Byte>, more: seq<Byte>)
      requires disk.Valid() && FileOn(disk.sectors, volume, chain, handle.size, handle.currentCluster, 0)
      requires |chain| == 1 && volume.sectorsPerCluster == 2 && handle.size == 1000
      requires handle.currentOffset == 0 && !handle.isDirectory && forall n :: !disk.fails(n)
      modifies disk, handle`currentOffset, handle`currentCluster
      ensures |out| == 512 && more == [] && handle.currentOffset == 512 < handle.size
    {
      ghost var m, m';
      out, m := Read(handle, 512, chain, 0);
      CoherentRead(disk, volume, chain, 1000, 0, 512, out, 0, m);
      MisalignedReadSkipsCluster(disk, volume, chain, 1000, 0, 512, out, 0, m);
      more, m' := Read(handle, 512, chain, m);
    }

    /** The shell's loop: read chunk after chunk until a read delivers nothing. When chunks fit, all of the file comes
        unless a disk read fails; when they fit even after failures, what comes is a prefix of the file in any case. */
    method ReadFile(handle: FileHandle, chunk: nat, ghost chain: seq<nat>) returns (content: seq<Byte>)
      requires disk.Valid() && handle.currentOffset == 0 && !handle.isDirectory
      requires FileOn(disk.sectors, volume, chain, handle.size, handle.currentCluster, 0)
      requires chunk > 0
      modifies disk, handle`currentOffset, handle`currentCluster
      ensures disk.Valid() && handle.currentOffset == |content| <= handle.size
      ensures handle.size > 0 && Fits(disk, volume, chunk, handle.size, old(disk.count), disk.count) ==>
        content == Flat(disk.sectors, volume, chain)[..|content|]
      ensures (handle.size == 0 || ChunkFits(volume, chunk, handle.size)) && !FailsIn(disk, old(disk.count), disk.count)
        ==> |content| == handle.size
    {
      hide IsChain, ChainEntry, HasEntry, FatEntry, Flat, ReadOutcome, FailsIn;
      hide ClusterStart, OnlyChainSectors, ClusterSize, ChunkFits, ChunkAlwaysFits, ChunkReady, Delivered;
      content := [];
      if handle.size == 0 {
        var nothing, _ := Read(handle, chunk, chain, 0);
        return;
      }
      ghost var m, size, flat := 0, handle.size, Flat(disk.sectors, volume, chain);
      StartOfFile(disk.sectors, volume, chain, chunk, size);
      while true
        invariant disk.Valid() && old(disk.count) <= disk.count && |content| == handle.currentOffset <= handle.size
        invariant FileOn(disk.sectors, volume, chain, handle.size, handle.currentCluster, m)
        invariant Fits(disk, volume, chunk, size, old(disk.count), disk.count) ==>
          && content == flat[..handle.currentOffset]
          && (ChunkReady(volume, chain, size, chunk, handle.currentOffset, m)
              || (m == |chain| && FailsIn(disk, old(disk.count), disk.count)))
        decreases handle.size - handle.currentOffset
      {
        ghost var offset, m0, before := handle.currentOffset, m, disk.count;
        var read;
        read, m := Read(handle, chunk, chain, m);
        FitsBefore(disk, volume, chunk, size, old(disk.count), before, disk.count);
        ghost var fits := Fits(disk, volume, chunk, size, old(disk.count), disk.count);
        if fits && offset < size {
          if ChunkReady(volume, chain, size, chunk, offset, m0) {
            ReadyInside(volume, chain, size, chunk, offset, m0);
            ChunkStep(disk, volume, chain, size, chunk, offset, m0, read, m, old(disk.count));
          } else {
            FailedBefore(disk, old(disk.count), before, disk.count);
          }
        }
        if read == [] {
          return;
        }
        if fits {
          AppendDelivered(flat, content, read);
        }
        content := content + read;
      }
    }
  }

  /** A file that is not empty lies on a chain long enough for its size, and `cluster` stands for position `m` of it. An
      empty file has no cluster. */
  ghost predicate FileOn(sectors: seq<Sector>, v: Volume, chain: seq<nat>, size: nat, cluster: nat, m: nat)
  {
    size > 0 ==> IsChain(sectors, v, chain) && At(chain, m, cluster) && size <= |Flat(sectors, v, chain)|
  }

  /** The handle's cluster is the chain element that holds its offset, or the offset is the end of the file. */
  ghost predicate Coherent(v: Volume, chain: seq<nat>, size: nat, offset: nat, m: nat)
  {
    offset == size || (m < |chain| && Inside(v, m, offset))
  }

  /** A coherent handle reads from its own offset. */
  lemma CoherentStart(v: Volume, m: nat, offset: nat)
    requires ClusterSize(v) > 0 && Inside(v, m, offset)
    ensures ClusterStart(v, m) + offset % ClusterSize(v) == offset
    ensures offset / ClusterSize(v) == m
  {
    DivUnique(offset, ClusterSize(v), m, offset - ClusterStart(v, m));
  }

  /** After a read used up `m` clusters, the next byte lies in the cluster at `m` exactly on a cluster boundary. */
  lemma ConsumedAligned(v: Volume, m: nat, q: nat)
    requires ClusterSize(v) > 0 && Consumed(v, m, q)
    ensures Inside(v, m, q) <==> q % ClusterSize(v) == 0
    ensures q % ClusterSize(v) == 0 <==> q == ClusterStart(v, m)
    ensures q % ClusterSize(v) != 0 ==> ClusterStart(v, m) + q % ClusterSize(v) == q + ClusterSize(v)
  {
    hide ClusterStart;
    StartNext(v, m - 1);
    if q == ClusterStart(v, m) {
      StartDivides(v, m);
    } else {
      CoherentStart(v, m - 1, q);
    }
  }

  lemma StartDivides(v: Volume, m: nat)
    requires ClusterSize(v) > 0
    ensures ClusterStart(v, m) % ClusterSize(v) == 0
  {
    DivUnique(ClusterStart(v, m), ClusterSize(v), m, 0);
  }

  /** A read through a coherent handle delivers the file's bytes from its offset, all that were asked for unless a disk
      read failed, and leaves the handle coherent exactly when it ended in a failed data read, at the end of the file,
      or on a cluster boundary with the successor looked up. */
  lemma CoherentRead(disk: Disk, v: Volume, chain: seq<nat>, size: nat, offset: nat, request: nat,
                     out: seq<Byte>, m0: nat, m: nat)
    requires IsChain(disk.sectors, v, chain) && size <= |Flat(disk.sectors, v, chain)| && ClusterSize(v) > 0
    requires Coherent(v, chain, size, offset, m0) && offset < size && 0 < request <= size - offset
    requires ReadOutcome(disk, v, chain, ClusterStart(v, m0) + offset % ClusterSize(v), request, out, m)
    ensures Delivered(Flat(disk.sectors, v, chain), offset, out) && |out| <= request
    ensures !LastFailed(disk) ==> |out| == request
    ensures Coherent(v, chain, size, offset + |out|, m) <==>
      (LastFailed(disk) && LastData(disk, v)) || offset + |out| == size
      || (!LastFailed(disk) && (offset + |out|) % ClusterSize(v) == 0)
  {
    CoherentStart(v, m0, offset);
    var q := offset + |out|;
    if !LastFailed(disk) {
      ConsumedAligned(v, m, q);
    }
  }

  /** What a read delivers, also when nothing was asked for, in terms of the file. */
  lemma ReadFromOffset(disk: Disk, v: Volume, chain: seq<nat>, size: nat, offset: nat, request: nat,
                       out: seq<Byte>, m0: nat, m: nat)
    requires IsChain(disk.sectors, v, chain) && size <= |Flat(disk.sectors, v, chain)| && ClusterSize(v) > 0
    requires Coherent(v, chain, size, offset, m0) && offset < size && request <= size - offset
    requires if request == 0 then out == []
             else ReadOutcome(disk, v, chain, ClusterStart(v, m0) + offset % ClusterSize(v), request, out, m)
    ensures Delivered(Flat(disk.sectors, v, chain), offset, out) && |out| <= request
    ensures |out| < request ==> LastFailed(disk)
  {
    if request > 0 {
      CoherentRead(disk, v, chain, size, offset, request, out, m0, m);
    }
  }

  /** A read that ends here leaves the handle in step: on a cluster boundary, or at the end of the file. */
  predicate InStep(v: Volume, size: nat, q: nat)
    requires ClusterSize(v) > 0
  {
    q >= size || q % ClusterSize(v) == 0
  }

  /** A handle at chain position `m` whose offset `q` lies one cluster before the place the two stand for. The position
      is past the end of the chain when that is as far as the chain reaches. */
  ghost predicate Slipped(sectors: seq<Sector>, v: Volume, chain: seq<nat>, size: nat, q: nat, m: nat)
    requires IsChain(sectors, v, chain) && ClusterSize(v) > 0
  {
    && q < size && m <= |chain|
    && ClusterStart(v, m) + q % ClusterSize(v) == q + ClusterSize(v)
    && (m < |chain| <==> q + ClusterSize(v) < |Flat(sectors, v, chain)|)
  }

  /** What the read after the first `mid` disk reads delivers when the handle should stand at `q` but is out of step:
      bytes from a whole cluster further on, or nothing when the chain does not reach that far. */
  ghost predicate OutOfStep(disk: Disk, v: Volume, chain: seq<nat>, size: nat, q: nat, second: nat,
                            more: seq<Byte>, mid: nat)
    reads disk
    requires IsChain(disk.sectors, v, chain)
  {
    var flat, from := Flat(disk.sectors, v, chain), q + ClusterSize(v);
    && q < size
    && (from < |flat| ==> Delivered(flat, from, more))
    && (from < |flat| && second > 0 && !FailsIn(disk, mid, disk.count) ==> more != [])
    && (from >= |flat| ==> more == [])
  }

  lemma NotSlipped(sectors: seq<Sector>, v: Volume, chain: seq<nat>, size: nat, q: nat, m: nat)
    requires IsChain(sectors, v, chain) && ClusterSize(v) > 0 && Coherent(v, chain, size, q, m)
    ensures !Slipped(sectors, v, chain, size, q, m)
  {
    if q < size {
      CoherentStart(v, m, q);
    }
  }

  /** Where a read through a coherent handle leaves the handle when it did not fail. */
  lemma PlaceAfterRead(disk: Disk, v: Volume, chain: seq<nat>, size: nat, offset: nat, request: nat,
                       out: seq<Byte>, m0: nat, m: nat)
    requires IsChain(disk.sectors, v, chain) && size <= |Flat(disk.sectors, v, chain)| && ClusterSize(v) > 0
    requires Coherent(v, chain, size, offset, m0) && offset < size && 0 < request <= size - offset
    requires ReadOutcome(disk, v, chain, ClusterStart(v, m0) + offset % ClusterSize(v), request, out, m)
    ensures Delivered(Flat(disk.sectors, v, chain), offset, out)
    ensures !LastFailed(disk) ==>
      if InStep(v, size, offset + |out|)
      then Coherent(v, chain, size, offset + |out|, m) && !Slipped(disk.sectors, v, chain, size, offset + |out|, m)
      else Slipped(disk.sectors, v, chain, size, offset + |out|, m)
  {
    hide ReadOutcome, Flat, IsChain, ClusterStart, ClusterSize, Slipped, Coherent, Delivered;
    CoherentRead(disk, v, chain, size, offset, request, out, m0, m);
    if !LastFailed(disk) {
      if InStep(v, size, offset + |out|) {
        NotSlipped(disk.sectors, v, chain, size, offset + |out|, m);
      } else {
        MisalignedReadSkipsCluster(disk, v, chain, size, offset, request, out, m0, m);
      }
    }
  }

  /** A read through a coherent handle continues the file, at its end with nothing. */
  lemma NextRead(disk: Disk, v: Volume, chain: seq<nat>, size: nat, q: nat, m: nat, second: nat,
                 more: seq<Byte>, m': nat)
    requires IsChain(disk.sectors, v, chain) && ClusterSize(v) > 0 && q <= size <= |Flat(disk.sectors, v, chain)|
    requires Coherent(v, chain, size, q, m)
    requires var request := Min(second, size - q);
      if request == 0 || m == |chain| then more == []
      else ReadOutcome(disk, v, chain, ClusterStart(v, m) + q % ClusterSize(v), request, more, m')
    ensures Delivered(Flat(disk.sectors, v, chain), q, more)
  {
    if q < size {
      ReadFromOffset(disk, v, chain, size, q, Min(second, size - q), more, m, m');
    }
  }

  lemma SecondRead(disk: Disk, v: Volume, chain: seq<nat>, size: nat, q: nat, m: nat, second: nat,
                   more: seq<Byte>, m': nat, mid: nat)
    requires IsChain(disk.sectors, v, chain) && ClusterSize(v) > 0 && Slipped(disk.sectors, v, chain, size, q, m)
    requires var request := Min(second, size - q);
      if request == 0 || m == |chain| then more == []
      else mid < disk.count && ReadOutcome(disk, v, chain, ClusterStart(v, m) + q % ClusterSize(v), request, more, m')
    ensures OutOfStep(disk, v, chain, size, q, second, more, mid)
  {
    hide ClusterStart, ClusterSize, Flat, IsChain, ReadOutcome;
    if m < |chain| {
      OutcomeDelivers(disk, v, chain, q + ClusterSize(v), Min(second, size - q), more, m');
    }
  }

  /** A read that is not in step when it ends leaves the handle a whole cluster ahead. */
  lemma MisalignedReadSkipsCluster(disk: Disk, v: Volume, chain: seq<nat>, size: nat, offset: nat, request: nat,
                                   out: seq<Byte>, m0: nat, m: nat)
    requires IsChain(disk.sectors, v, chain) && size <= |Flat(disk.sectors, v, chain)| && ClusterSize(v) > 0
    requires Coherent(v, chain, size, offset, m0) && offset < size && 0 < request <= size - offset
    requires ReadOutcome(disk, v, chain, ClusterStart(v, m0) + offset % ClusterSize(v), request, out, m)
    requires !LastFailed(disk) && !InStep(v, size, offset + |out|)
    ensures Slipped(disk.sectors, v, chain, size, offset + |out|, m)
  {
    var q := offset + |out|;
    CoherentStart(v, m0, offset);
    ConsumedAligned(v, m, q);
    hide ClusterStart, Flat;
    StartNext(v, m);
    if m < |chain| {
      StartMonotone(v, m + 1, |chain|);
    } else {
      StartMonotone(v, |chain|, m);
    }
  }

  /** With two sectors to a cluster, 512-byte chunks already fail: after the first the handle stands for byte 1536. */
  lemma SmallChunkExample(disk: Disk, v: Volume, chain: seq<nat>, out: seq<Byte>, m: nat)
    requires IsChain(disk.sectors, v, chain) && v.sectorsPerCluster == 2 && |Flat(disk.sectors, v, chain)| >= 2000
    requires ReadOutcome(disk, v, chain, ClusterStart(v, 0), 512, out, m) && !LastFailed(disk)
    ensures |out| == 512 && !Coherent(v, chain, 2000, 512, m) && ClusterStart(v, m) + 512 % ClusterSize(v) == 1536
  {
    CoherentRead(disk, v, chain, 2000, 0, 512, out, 0, m);
    MisalignedReadSkipsCluster(disk, v, chain, 2000, 0, 512, out, 0, m);
  }

  /** A seek reaches its cluster exactly when the offset is below the capacity of the chain; then the handle it leaves
      is coherent. The end of a file that fills its last cluster is the one legal offset it cannot reach. */
  lemma SeekReach(sectors: seq<Sector>, v: Volume, chain: seq<nat>, size: nat, offset: nat)
    requires IsChain(sectors, v, chain) && ClusterSize(v) > 0
    ensures ClusterIndex(v, offset) < |chain| <==> offset < |Flat(sectors, v, chain)|
    ensures ClusterIndex(v, offset) < |chain| ==> Coherent(v, chain, size, offset, ClusterIndex(v, offset))
  {
    var m := ClusterIndex(v, offset);
    ClusterIndexInside(v, offset);
    StartNext(v, m);
    if m < |chain| {
      StartMonotone(v, m + 1, |chain|);
    } else {
      StartMonotone(v, |chain|, m);
    }
  }

  /** Chunks are whole clusters, or one chunk is enough. */
  predicate ChunkFits(v: Volume, chunk: nat, size: nat)
  {
    ClusterSize(v) > 0 && (chunk % ClusterSize(v) == 0 || size <= chunk)
  }

  /** Chunks fit also behind a sector at which a failed read cut a chunk short. */
  predicate ChunkAlwaysFits(v: Volume, chunk: nat, size: nat)
  {
    && ClusterSize(v) > 0
    && (size <= chunk || (chunk % ClusterSize(v) == 0 && (v.sectorsPerCluster == 1 || size <= chunk + 512)))
  }

  /** Chunks fit this file for all the failures among the disk reads number `from .. to`. */
  ghost predicate Fits(disk: Disk, v: Volume, chunk: nat, size: nat, from: nat, to: nat)
  {
    ChunkAlwaysFits(v, chunk, size) || (ChunkFits(v, chunk, size) && !FailsIn(disk, from, to))
  }

  /** The loop of whole-file reading is between two chunks. */
  ghost predicate ChunkReady(v: Volume, chain: seq<nat>, size: nat, chunk: nat, offset: nat, m: nat)
  {
    && ClusterSize(v) > 0 && Coherent(v, chain, size, offset, m)
    && (offset == size || size <= chunk
        || (chunk % ClusterSize(v) == 0 && (offset % ClusterSize(v) == 0 || (512 <= offset && size <= chunk + 512))))
  }

  /** A chunk that starts at `offset` is followed by one that starts at `next`: all of it came, or a failed read cut it
      short at a sector boundary. */
  predicate ChunkCut(chunk: nat, offset: nat, next: nat)
  {
    next == offset + chunk || (next % 512 == 0 && offset < next < offset + chunk)
  }

  /** The offsets at which the chunks of a file of `size` bytes may start, one after the other. */
  ghost predicate ChunkRun(chunk: nat, size: nat, offsets: seq<nat>)
  {
    && 0 < |offsets| && offsets[0] == 0
    && (forall k :: 0 <= k < |offsets| ==> offsets[k] < size)
    && (forall k :: 0 <= k < |offsets| - 1 ==> ChunkCut(chunk, offsets[k], offsets[k + 1]))
  }

  /** A whole chunk from this offset leaves the handle in place for the next. */
  predicate InPlace(v: Volume, chunk: nat, size: nat, offset: nat)
    requires ClusterSize(v) > 0
  {
    offset + chunk >= size || (offset + chunk) % ClusterSize(v) == 0
  }

  lemma {:induction false} FittingRun(v: Volume, chunk: nat, size: nat, offsets: seq<nat>)
    requires v.sectorsPerCluster > 0 && chunk > 0 && ChunkAlwaysFits(v, chunk, size) && size > chunk
    requires ChunkRun(chunk, size, offsets)
    ensures var last := offsets[|offsets| - 1];
      (last == 0 || 512 <= last) && (v.sectorsPerCluster == 1 ==> last % 512 == 0)
  {
    var n := |offsets| - 1;
    if n > 0 {
      FittingRun(v, chunk, size, offsets[..n]);
      assert ChunkCut(chunk, offsets[n - 1], offsets[n]);
      AtLeastOneCluster(v, chunk);
    }
  }

  lemma AtLeastOneCluster(v: Volume, chunk: nat)
    requires v.sectorsPerCluster > 0 && chunk > 0 && chunk % ClusterSize(v) == 0
    ensures 512 <= ClusterSize(v) <= chunk && (v.sectorsPerCluster > 1 ==> 1024 <= ClusterSize(v))
  {
    DivFundamental(chunk, ClusterSize(v));
    if chunk < ClusterSize(v) {
      DivUnique(chunk, ClusterSize(v), 0, chunk);
    }
  }

  /** Whatever reads fail, every chunk starts where the one before ended, if and only if one chunk holds the file, or
      chunks are whole clusters and clusters are single sectors or the file is at most a sector longer than a chunk. */
  lemma ChunksAlwaysExactly(v: Volume, chunk: nat, size: nat)
    requires v.sectorsPerCluster > 0 && chunk > 0 && size > 0
    ensures ChunkAlwaysFits(v, chunk, size) <==>
      forall offsets :: ChunkRun(chunk, size, offsets) ==> InPlace(v, chunk, size, offsets[|offsets| - 1])
  {
    if ChunkAlwaysFits(v, chunk, size) {
      forall offsets | ChunkRun(chunk, size, offsets)
        ensures InPlace(v, chunk, size, offsets[|offsets| - 1])
      {
        if size > chunk {
          FittingRun(v, chunk, size, offsets);
          if v.sectorsPerCluster == 1 {
            ModAdd(offsets[|offsets| - 1], chunk, 512);
          }
        }
      }
    } else {
      assert ChunkRun(chunk, size, [0]);
      if InPlace(v, chunk, size, 0) {
        AtLeastOneCluster(v, chunk);
        assert ChunkRun(chunk, size, [0, 512]);
        DivFundamental(chunk, ClusterSize(v));
        DivUnique(512 + chunk, ClusterSize(v), chunk / ClusterSize(v), 512);
        assert !InPlace(v, chunk, size, [0, 512][1]);
      }
    }
  }

  /** The first chunk of a file leaves the handle in place for the second if and only if chunks fit. */
  lemma ChunksExactly(disk: Disk, v: Volume, chain: seq<nat>, size: nat, chunk: nat, out: seq<Byte>, m: nat)
    requires IsChain(disk.sectors, v, chain) && size <= |Flat(disk.sectors, v, chain)| && ClusterSize(v) > 0
    requires size > 0 && chunk > 0 && !LastFailed(disk)
    requires ReadOutcome(disk, v, chain, ClusterStart(v, 0), Min(chunk, size), out, m)
    ensures Coherent(v, chain, size, |out|, m) <==> ChunkFits(v, chunk, size)
  {
    CoherentRead(disk, v, chain, size, 0, Min(chunk, size), out, 0, m);
  }

  lemma StartOfFile(sectors: seq<Sector>, v: Volume, chain: seq<nat>, chunk: nat, size: nat)
    requires IsChain(sectors, v, chain) && size <= |Flat(sectors, v, chain)|
    ensures ChunkAlwaysFits(v, chunk, size) ==> ChunkFits(v, chunk, size)
    ensures ChunkFits(v, chunk, size) ==> ChunkReady(v, chain, size, chunk, 0, 0)
  {
  }

  lemma ModAdd(a: nat, b: nat, d: nat)
    requires d > 0 && a % d == 0 && b % d == 0
    ensures (a + b) % d == 0
  {
    DivFundamental(a, d);
    DivFundamental(b, d);
    assert a + b == (a / d + b / d) * d;
    DivUnique(a + b, d, a / d + b / d, 0);
  }

  lemma AppendDelivered(flat: seq<Byte>, content: seq<Byte>, more: seq<Byte>)
    requires |content| <= |flat| && content == flat[..|content|] && Delivered(flat, |content|, more)
    ensures |content + more| <= |flat| && content + more == flat[..|content + more|]
  {
  }

  /** Chunks that fit for all the failures so far also did before the latest reads. */
  lemma FitsBefore(disk: Disk, v: Volume, chunk: nat, size: nat, from: nat, before: nat, to: nat)
    requires before <= to
    ensures Fits(disk, v, chunk, size, from, to) ==> Fits(disk, v, chunk, size, from, before)
  {
  }

  lemma ReadyInside(v: Volume, chain: seq<nat>, size: nat, chunk: nat, offset: nat, m: nat)
    requires ChunkReady(v, chain, size, chunk, offset, m) && offset < size
    ensures m < |chain|
  {
  }

  lemma FailedBefore(disk: Disk, from: nat, before: nat, to: nat)
    requires before <= to && FailsIn(disk, from, before)
    ensures FailsIn(disk, from, to)
  {
  }

  lemma SectorBoundary(v: Volume, m: nat, i: nat)
    ensures (ClusterStart(v, m) + i * 512) % 512 == 0
  {
    assert ClusterStart(v, m) == m * v.sectorsPerCluster * 512;
  }

  /** One chunk: it continues the file and leaves the loop ready for the next, unless a failed lookup ended it. */
  lemma ChunkStep(disk: Disk, v: Volume, chain: seq<nat>, size: nat, chunk: nat, offset: nat, m0: nat,
                  out: seq<Byte>, m: nat, from: nat)
    requires IsChain(disk.sectors, v, chain) && size <= |Flat(disk.sectors, v, chain)| && chunk > 0 && offset < size
    requires ChunkReady(v, chain, size, chunk, offset, m0) && from < disk.count
    requires Fits(disk, v, chunk, size, from, disk.count)
    requires var start := ClusterStart(v, m0) + offset % ClusterSize(v);
      ReadOutcome(disk, v, chain, start, Min(chunk, size - offset), out, m)
    ensures Delivered(Flat(disk.sectors, v, chain), offset, out) && offset + |out| <= size
    ensures !FailsIn(disk, from, disk.count) ==> out != []
    ensures ChunkReady(v, chain, size, chunk, offset + |out|, m) || (m == |chain| && FailsIn(disk, from, disk.count))
  {
    CoherentRead(disk, v, chain, size, offset, Min(chunk, size - offset), out, m0, m);
    CoherentStart(v, m0, offset);
    if !LastFailed(disk) {
      if chunk % ClusterSize(v) == 0 && offset % ClusterSize(v) == 0 {
        ModAdd(offset, chunk, ClusterSize(v));
      }
    } else {
      assert FailsIn(disk, from, disk.count);
      if LastData(disk, v) {
        SectorBoundary(v, m, disk.log[disk.count - 1] - ClusterToLba(v, chain[m]));
      }
    }
  }

  lemma ChainClusterSize(sectors: seq<Sector>, v: Volume, chain: seq<nat>)
    requires IsChain(sectors, v, chain)
    ensures ClusterSize(v) > 0
  {
    ChainHasData(sectors, v, chain);
  }

  lemma CoherentInside(v: Volume, chain: seq<nat>, size: nat, offset: nat, m: nat)
    requires Coherent(v, chain, size, offset, m) && offset < size
    ensures m < |chain|
  {
  }

  /** What a read delivers, also when nothing was asked for, in terms of the chain. */
  lemma OutcomeDelivers(disk: Disk, v: Volume, chain: seq<nat>, start: nat, request: nat, out: seq<Byte>, m: nat)
    requires IsChain(disk.sectors, v, chain) && start < |Flat(disk.sectors, v, chain)|
    requires if request == 0 then out == [] else ReadOutcome(disk, v, chain, start, request, out, m)
    ensures Delivered(Flat(disk.sectors, v, chain), start, out)
    ensures request > 0 && !LastFailed(disk) ==> out != []
  {
  }

  lemma OutcomeBounded(disk: Disk, v: Volume, chain: seq<nat>, start: nat, request: nat, out: seq<Byte>, m: nat)
    requires IsChain(disk.sectors, v, chain) && ReadOutcome(disk, v, chain, start, request, out, m)
    ensures |out| <= request
  {
  }

  lemma NoSectorsYet(log: seq<nat>, v: Volume, chain: seq<nat>, from: nat)
    requires from == |log|
    ensures OnlyChainSectors(log, v, chain, from)
  {
  }

  /** How a read of at most `request` bytes from chain position `start` ends: what was delivered, and at which chain
      position `m` it leaves the handle's cluster. Without a failure all is delivered that was asked for and that the
      chain holds. A failed data read ends it before the sector that failed, or at `start` when that sector was to be
      passed over. A failed lookup ends it with the cluster or the request. */
  ghost predicate ReadOutcome(disk: Disk, v: Volume, chain: seq<nat>, start: nat, request: nat, out: seq<Byte>, m: nat)
    reads disk
    requires IsChain(disk.sectors, v, chain)
  {
    var flat, q := Flat(disk.sectors, v, chain), start + |out|;
    && Delivered(flat, start, out) && |out| <= request && m <= |chain|
    && (!LastFailed(disk) ==> |out| == Min(request, |flat| - start) && Consumed(v, m, q))
    && (LastFailed(disk) && LastData(disk, v) ==>
          && |out| < request && m < |chain| && Inside(v, m, q) && InCluster(v, chain[m], disk.log[disk.count - 1])
          && q == Max(start, ClusterStart(v, m) + (disk.log[disk.count - 1] - ClusterToLba(v, chain[m])) * 512))
    && (LastFailed(disk) && !LastData(disk, v) ==>
          m == |chain| && out != [] && (|out| == request || EndsCluster(v, q)))
  }

  /** Byte `q` is the first behind some cluster. */
  ghost predicate EndsCluster(v: Volume, q: nat)
  {
    exists k: nat :: k > 0 && q == ClusterStart(v, k)
  }

  /** The failed read of a cluster's sector ended the copying `n` bytes behind position `skip` of the cluster. */
  ghost predicate FailedAt(disk: Disk, v: Volume, cluster: nat, skip: nat, n: nat)
    reads disk
    requires disk.Valid() && disk.count > 0
  {
    && InCluster(v, cluster, disk.log[disk.count - 1])
    && skip + n == Max(skip, (disk.log[disk.count - 1] - ClusterToLba(v, cluster)) * 512)
  }

  /** One more round of the cluster loop. */
  lemma StepOutcome(disk: Disk, v: Volume, chain: seq<nat>, start: nat, request: nat,
                    out: seq<Byte>, part: seq<Byte>, ok: bool, was: nat, m: nat, skip: nat)
    requires IsChain(disk.sectors, v, chain) && was < |chain| && |out| < request && skip < ClusterSize(v)
    requires Delivered(Flat(disk.sectors, v, chain), start, out) && start + |out| == ClusterStart(v, was) + skip
    requires Delivered(Flat(disk.sectors, v, chain), ClusterStart(v, was) + skip, part)
    requires if ok then |part| == Min(request - |out|, ClusterSize(v) - skip)
      else |part| < Min(request - |out|, ClusterSize(v) - skip) && m == was && LastFailed(disk) && LastData(disk, v)
           && FailedAt(disk, v, chain[was], skip, |part|)
    requires out != [] ==> skip == 0
    requires ok && LastFailed(disk) ==> m == |chain| && !LastData(disk, v)
    requires ok && !LastFailed(disk) ==> m == was + 1
    ensures Delivered(Flat(disk.sectors, v, chain), start, out + part)
    ensures
      |out + part| == request || !ok || LastFailed(disk) || m == |chain| || start + |out + part| == ClusterStart(v, m)
    ensures !ok || LastFailed(disk) || |out + part| == request || m == |chain|
      ==> ReadOutcome(disk, v, chain, start, request, out + part, m)
  {
    hide ClusterStart, ClusterToLba, Flat, IsChain;
    StartNext(v, was);
    var flat, q := Flat(disk.sectors, v, chain), start + |out + part|;
    assert q == ClusterStart(v, was) + skip + |part|;
    assert Delivered(flat, start, out + part) by { DeliveredMore(flat, start, out, part); }
    hide Delivered;
    if !ok {
      StepCut(disk, v, chain, start, request, out, part, was, skip);
    } else if LastFailed(disk) {
      assert |part| < request - |out| ==> q == ClusterStart(v, was + 1);
    } else if |out + part| == request || m == |chain| {
      StepDone(v, chain, start, request, out + part, was, m, skip, part, |flat|);
    }
  }

  lemma StepDone(v: Volume, chain: seq<nat>, start: nat, request: nat, all: seq<Byte>, was: nat, m: nat, skip: nat,
                 part: seq<Byte>, end: nat)
    requires was < |chain| && m == was + 1 && skip < ClusterSize(v) && 0 < |part| <= |all| <= request
    requires start + |all| == ClusterStart(v, was) + skip + |part|
    requires |part| == Min(request - (|all| - |part|), ClusterSize(v) - skip)
    requires end == ClusterStart(v, |chain|) && start + |all| <= end
    requires |all| == request || m == |chain|
    ensures |all| == Min(request, end - start) && Consumed(v, m, start + |all|)
  {
    hide ClusterStart;
    StartNext(v, was);
  }

  lemma StepCut(disk: Disk, v: Volume, chain: seq<nat>, start: nat, request: nat,
                out: seq<Byte>, part: seq<Byte>, was: nat, skip: nat)
    requires disk.Valid() && disk.count > 0 && was < |chain| && skip < ClusterSize(v)
    requires start + |out| == ClusterStart(v, was) + skip && (out != [] ==> skip == 0)
    requires |out| < request && |part| < Min(request - |out|, ClusterSize(v) - skip)
    requires FailedAt(disk, v, chain[was], skip, |part|)
    ensures var q := start + |out + part|;
      && |out + part| < request && Inside(v, was, q) && InCluster(v, chain[was], disk.log[disk.count - 1])
      && q == Max(start, ClusterStart(v, was) + (disk.log[disk.count - 1] - ClusterToLba(v, chain[was])) * 512)
  {
    hide ClusterStart, ClusterToLba;
  }

  lemma ReadNothing(disk: Disk, v: Volume, chain: seq<nat>, m: nat, skip: nat, request: nat)
    requires IsChain(disk.sectors, v, chain) && skip < ClusterSize(v) && disk.Valid()
    ensures m < |chain| ==> Delivered(Flat(disk.sectors, v, chain), ClusterStart(v, m) + skip, [])
    ensures OnlyChainSectors(disk.log, v, chain, disk.count)
  {
    if m < |chain| {
      DeliveredNothing(disk.sectors, v, chain, m, ClusterStart(v, m), skip);
    }
  }

  /** One of the disk reads number `from .. to` fails. */
  ghost predicate FailsIn(disk: Disk, from: nat, to: int)
  {
    exists k: nat :: from <= k < to && disk.fails(k)
  }

  /** The most recent disk read failed. */
  ghost predicate LastFailed(disk: Disk)
    reads disk
  {
    disk.count > 0 && disk.fails(disk.count - 1)
  }

  /** The most recent disk read was for file data, not for the table. */
  ghost predicate LastData(disk: Disk, v: Volume)
    reads disk
  {
    disk.Valid() && disk.count > 0 && disk.log[disk.count - 1] >= v.clusterStartLba
  }

  /** The sector holds data of a chain cluster, or its table entry. */
  ghost predicate ChainSector(v: Volume, chain: seq<nat>, lba: nat)
  {
    exists i :: 0 <= i < |chain| && (InCluster(v, chain[i], lba) || lba == EntryLba(v, chain[i]))
  }

  /** Every sector asked for since the first `from` ones belongs to the chain. */
  ghost predicate OnlyChainSectors(log: seq<nat>, v: Volume, chain: seq<nat>, from: nat)
  {
    forall k :: from <= k < |log| ==> ChainSector(v, chain, log[k])
  }

  lemma MoreChainSectors(log: seq<nat>, log': seq<nat>, v: Volume, chain: seq<nat>, from: nat)
    requires from <= |log| && log <= log'
    requires OnlyChainSectors(log, v, chain, from) && OnlyChainSectors(log', v, chain, |log|)
    ensures OnlyChainSectors(log', v, chain, from)
  {
  }

  lemma ClusterSectors(sectors: seq<Sector>, v: Volume, chain: seq<nat>, m: nat)
    requires IsChain(sectors, v, chain) && m < |chain|
    ensures forall lba: nat :: InCluster(v, chain[m], lba) ==> lba >= v.clusterStartLba && ChainSector(v, chain, lba)
    ensures ChainSector(v, chain, EntryLba(v, chain[m]))
  {
    hide HasEntry, HasData, FatEntry, ClusterToLba, EntryLba;
    assert ChainEntry(sectors, v, chain, m);
    DataBehindTable(sectors, v, chain[m]);
  }

  lemma DataBehindTable(sectors: seq<Sector>, v: Volume, cluster: nat)
    requires HasData(sectors, v, cluster)
    ensures ClusterToLba(v, cluster) >= v.clusterStartLba
  {
    LbaOfCluster(sectors, v, cluster);
    MulMonotone(0, cluster - 2, v.sectorsPerCluster);
  }

  /** The sector belongs to the data of the cluster. */
  ghost predicate InCluster(v: Volume, cluster: nat, lba: nat)
  {
    ClusterToLba(v, cluster) <= lba < ClusterToLba(v, cluster) + v.sectorsPerCluster
  }

  lemma SectorInCluster(v: Volume, cluster: nat, i: nat)
    requires i < v.sectorsPerCluster
    ensures InCluster(v, cluster, ClusterToLba(v, cluster) + i)
  {
  }

  lemma DeliveredNothing(sectors: seq<Sector>, v: Volume, chain: seq<nat>, m: nat, base: nat, skip: nat)
    requires IsChain(sectors, v, chain) && m < |chain| && base == ClusterStart(v, m) && skip < ClusterSize(v)
    ensures Delivered(Flat(sectors, v, chain), base + skip, [])
  {
    hide ClusterStart;
    StartNext(v, m);
    StartMonotone(v, m + 1, |chain|);
  }
}
