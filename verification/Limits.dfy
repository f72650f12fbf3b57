/** Where the file system stops doing what its callers would expect: exact conditions and examples. */
module Limits {
  import opened Arith
  import opened Bytes
  import opened Geometries
  import opened FatEntries
  import opened Chains
  import opened Scans
  import opened FileData
  import opened Slots
  import opened Rooms
  import opened IoMan
  import opened Partitions
  import opened Fats
  import opened Files

  /** On a full volume fat_allocClusterChain takes nothing and reports success, whatever it was asked for. */
  lemma FullVolumeSucceeds(fat: seq<nat>, last: nat, dcc: nat, n: nat)
    requires |fat| == dcc + 2 && 2 <= last < |fat| && fat[last] != 0
    requires forall c :: 2 <= c <= dcc ==> fat[c] != 0
    ensures Chosen(fat, last, dcc, n) == [] && Int16(Shortfall(fat, last, dcc, n)) == 0
  {
    hide FreeIn;
    NoneFree(fat, last + 1, dcc + 1);
    NoneFree(fat, 2, LowEnd(last, dcc));
    assert Candidates(fat, last, dcc) == [];
    hide Candidates;
  }

  /** A volume with one free cluster behind the chain's end: asked for two clusters, the allocation takes one, links it to
      itself on the way, and reports success. */
  lemma OneClusterForTwo()
    ensures var fat := [0xFF8, 0xFFF, 0xFFF, 0, 0xFFF];
            Chosen(fat, 2, 3, 2) == [3] && Shortfall(fat, 2, 3, 2) == 0 && Links(fat, 2, 3) == 2
  {
    hide FreeIn;
    var fat := [0xFF8, 0xFFF, 0xFFF, 0, 0xFFF];
    FreeInNext(fat, 3, 3);
    FreeInNext(fat, 2, 2);
    Empty(fat, 3, 3);
    Empty(fat, 2, 2);
    assert Candidates(fat, 2, 3) == [3];
  }

  /** A write that ends early because the clusters ended: the file still fits its clusters exactly if the write began at
      the end of the file. Otherwise what was overwritten is counted twice. */
  lemma ShortWriteSize(cap: nat, fileSize: nat, offset: nat, size: nat)
    requires offset <= fileSize <= cap < offset + size && fileSize + cap < UINT32
    ensures var w := Reach(cap, offset, size);
            w < size && (NewSize(fileSize, offset, size, w) <= cap <==> offset == fileSize)
  {
  }

  // ---- writes beyond the end of the file ----

  /** The file after a complete write of `data` at `offset`, `raw` being what its clusters held. */
  function FileAfter(raw: seq<Byte>, fileSize: nat, offset: nat, data: seq<Byte>): (bs: seq<Byte>)
    requires fileSize <= |raw| && offset + |data| <= |raw|
  {
    Overlay(raw, offset, data)[..NewSize(fileSize, Clamped(fileSize, offset), |data|, |data|)]
  }

  /** The write is the splice at the clamped offset that the allocation and the new size are computed for. */
  predicate WritesAsCounted(raw: seq<Byte>, fileSize: nat, offset: nat, data: seq<Byte>)
    requires fileSize <= |raw| && offset + |data| <= |raw|
  {
    FileAfter(raw, fileSize, offset, data) == Spliced(raw[..fileSize], Clamped(fileSize, offset), data)
  }

  /** A write that begins behind the end of the file goes where it was asked to go, but the size grows only by its
      length: at or beyond that size nothing of it is in the file, and the file's new bytes are whatever was in the
      clusters before. */
  lemma BeyondTheEnd(raw: seq<Byte>, fileSize: nat, offset: nat, data: seq<Byte>)
    requires fileSize < offset && offset + |data| <= |raw|
    ensures NewSize(fileSize, Clamped(fileSize, offset), |data|, |data|) == fileSize + |data|
    ensures var content := FileAfter(raw, fileSize, offset, data);
            content[..fileSize] == raw[..fileSize] && (offset >= fileSize + |data| ==> content == raw[..fileSize + |data|])
  {
  }

  /** A write is that splice, whatever the clusters held, exactly if it begins inside the file or at its end, or writes
      nothing. */
  lemma WritesAsCountedIff(cap: nat, fileSize: nat, offset: nat, data: seq<Byte>)
    requires fileSize <= cap && offset + |data| <= cap
    ensures (forall raw: seq<Byte> | |raw| == cap :: WritesAsCounted(raw, fileSize, offset, data))
              <==> offset <= fileSize || data == []
  {
    if offset <= fileSize || data == [] {
      forall raw: seq<Byte> | |raw| == cap ensures WritesAsCounted(raw, fileSize, offset, data) {
        InsideCounted(raw, fileSize, offset, data);
      }
    } else {
      var first: int := data[0];
      var other: Byte := (first + 1) % 256;
      var raw: seq<Byte> := seq(cap, _ => other);
      assert FileAfter(raw, fileSize, offset, data)[fileSize] == other;
      assert Spliced(raw[..fileSize], Clamped(fileSize, offset), data)[fileSize] == data[0];
      assert !WritesAsCounted(raw, fileSize, offset, data);
    }
  }

  lemma InsideCounted(raw: seq<Byte>, fileSize: nat, offset: nat, data: seq<Byte>)
    requires fileSize <= |raw| && offset + |data| <= |raw| && (offset <= fileSize || data == [])
    ensures WritesAsCounted(raw, fileSize, offset, data)
  {
    if data == [] {
      assert Spliced(raw[..fileSize], Clamped(fileSize, offset), data) == raw[..fileSize];
    } else {
      OverlaySplices(raw, fileSize, offset, data);
    }
  }

  // ---- requests for writing that are not marked ----

  /** Of a request with the write bit that is served, the slot is marked writable exactly if the sector was cached, or a
      buffer in use had to be reused, or the mode is the plain read-write mode: a miss into a free buffer compares the whole
      mode. */
  lemma MarkedIff(s: Slot, cached: bool, available: bool, address: nat, bytes: Sector, mode: nat)
    requires IsReqRw(mode) && (cached || available || s.itptr + 1 < |s.stack|)
    ensures Handed(s, cached, available, address, bytes, mode).writable <==> cached || !available || mode == 2
  {
  }

  /** So read-write with the exempt bit, or with the read-only bit, is lost there. */
  lemma UnmarkedModes(s: Slot, address: nat, bytes: Sector)
    ensures !Handed(s, false, true, address, bytes, 6).writable
    ensures !Handed(s, false, true, address, bytes, 3).writable
  {
    MarkedIff(s, false, true, address, bytes, IOM_MODE_READWRITE + IOM_MODE_EXP_REQ);
    MarkedIff(s, false, true, address, bytes, IOM_MODE_READWRITE + IOM_MODE_READONLY);
  }

  // ---- a file without clusters ----

  /** fs_clusterToSector in 32-bit unsigned arithmetic, for any cluster number. */
  function ClusterToSector32(g: Geometry, cluster: nat): nat {
    (DataBase(g) + (cluster - 2) * g.spc) % UINT32
  }

  /** For the clusters of a volume it is the sector, for cluster 0 one in front of the data area. */
  lemma Sector32(g: Geometry, count: nat, cluster: nat)
    requires WellFormed(g, count)
    ensures IsCluster(g, cluster) ==> ClusterToSector32(g, cluster) == ClusterToSector(g, cluster)
    ensures 2 * g.spc <= DataBase(g) ==> ClusterToSector32(g, 0) == DataBase(g) - 2 * g.spc
  {
    MulMono(0, g.dcc, g.spc);
    assert DataBase(g) <= count <= UINT32 && g.spc > 0;
    if IsCluster(g, cluster) {
      ClusterInside(g, count, cluster, 0);
      Small(ClusterToSector(g, cluster));
    }
    hide WellFormed, DataBase;
    if 2 * g.spc <= DataBase(g) { Small(DataBase(g) - 2 * g.spc); }
  }

  lemma Small(x: nat)
    requires x < UINT32
    ensures x % UINT32 == x
  {
  }

  /** What a write to a file without clusters does when it needs `n`: the allocation reports success exactly if `n` is a
      multiple of 65536. Then the cursor stands on cluster 0, and the data goes to the sector computed for that. */
  method WriteWithoutClusters(fs: FileSystem, cache: ClusterChain, n: nat) returns (r: int, sector: nat)
    requires fs.Ok() && fs.part.Slack() >= Buffers(fs.g) + 1 && cache.Tracks([])
    modifies fs.part.io, cache, fs`freeClusterCount
    ensures fs.Untouched() && (r == 0 <==> n % UINT16 == 0) && (r != 0 ==> sector == 0)
    ensures r == 0 && 2 * fs.g.spc <= DataBase(fs.g) ==> sector == DataBase(fs.g) - 2 * fs.g.spc
  {
    hide Partition.Disc, Partition.Outside, Partition.Slack, FileSystem.Table, Partition.Ready, FileSystem.Around, WellFormed;
    hide ClusterChain.Tracks, DataBase;
    cache.Here([]);
    CutToZero(n);
    Sector32(fs.g, fs.part.count, 0);
    sector := 0;
    r := fs.AllocClusterChain(cache, n, []);
    if r == 0 {
      var e := fs.LogicToDiscCluster(cache, 0, [], 0);
      sector := ClusterToSector32(fs.g, cache.discCluster);
    }
  }

  /** Such a volume and write: 32 MB to a file without clusters go to the last sectors of the second FAT. */
  lemma WrittenIntoFat()
    ensures var g := Geometry(FAT32, 32, 2, 0, 1, 520, 66672, 65600, 2, 1072);
            && WellFormed(g, 66672) && Missing(g, 0, 65536 * 512) == 65536 && Int16(65536) == 0
            && ClusterToSector32(g, 0) == 1070 && g.reserved + g.fatSectors <= 1070 < g.reserved + 2 * g.fatSectors
  {
  }

  // ---- the shipped cache: one buffer, one stack slot ----

  /** The buffers an allocation holds while it links cluster `lc` to `cc` on FAT12: the entry's sector of `cc`, that of
      `lc`, and the next one if the entry of `lc` continues there. With one buffer and one stack slot the last request is
      refused, and the code would write through a null pointer, exactly if there is one and the first two sectors differ. */
  method ThirdBuffer(fs: FileSystem, lc: nat, cc: nat) returns (served: bool)
    requires fs.Ok() && fs.g.fatType == FAT12 && lc < fs.g.dcc + 2 && cc < fs.g.dcc + 2
    requires |fs.part.io.slots| == 1 && fs.part.io.numit == 1 && fs.part.io.held == []
    modifies fs.part.io
    ensures served <==> !Straddles(FAT12, lc) || SectorAddress(fs.g, cc) == SectorAddress(fs.g, lc)
  {
    hide CacheOk, Fat, Partition.Disc, Partition.Outside, WellFormed, SectorAddress, FatCovers, HasRoom, Handed, Picked;
    fs.Facts();
    EntryLocated(fs.g, lc);
    EntryLocated(fs.g, cc);
    var bufa := fs.part.GetSect(SectorAddress(fs.g, cc), IOM_MODE_READONLY);
    var bufb := fs.part.GetSect(SectorAddress(fs.g, lc), IOM_MODE_READWRITE);
    served := true;
    if EntryOffset(FAT12, lc) == 511 {
      served := OneMore(fs.part.io, fs.part.lba + SectorAddress(fs.g, lc) + 1);
    }
  }

  /** A third request to such a cache, for another sector than the second. */
  method OneMore(io: IOManager, address: nat) returns (served: bool)
    requires io.Valid() && |io.slots| == 1 && io.numit == 1 && address < |io.view| && |io.held| == 2
    requires address != io.held[1].address
    modifies io
    ensures served <==> old(io.held[0].address == io.held[1].address)
  {
    hide CacheOk, HasRoom, Handed, Picked, WrittenBack;
    RoomIff(io.numit, io.slots, io.dev, io.view, io.held, address);
    TwoHolds(Asked(io.held), address);
    UsageBelow(io.numit, io.slots, io.dev, io.view, io.held);
    CacheFacts(io.numit, io.slots, io.dev, io.view, io.held);
    var bp := io.GetSector(address, IOM_MODE_READWRITE);
    served := bp != -1;
  }

  lemma TwoHolds(asked: seq<nat>, a: nat)
    requires |asked| == 2 && a != asked[1]
    ensures HasRoom(1, 1, asked, a) <==> asked[0] == asked[1]
  {
    assert asked[..1][..0] == [];
    assert RunCount(asked[..1]) == 1;
  }
}
