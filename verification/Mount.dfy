/** fs_initFs: mounting a partition, and a session on a freshly formatted one. */
module Mounts {
  import opened Arith
  import opened Bytes
  import opened Slots
  import opened IoMan
  import opened Partitions
  import opened Geometries
  import opened FatEntries
  import opened Chains
  import opened Fats
  import opened Files
  import opened Volumes
  import opened Catalogs
  import opened VolumeModels
  import opened Sessions
  import opened Mkfs
  import opened Coverage
  import opened Formats

  const MAGIC := 0xAA55

  /** fs_isValidFat. A sector without the magic number is not released. */
  method IsValidFat(part: Partition) returns (ok: bool)
    requires part.Ready() && part.count > 0 && part.Slack() > 0
    modifies part.io
    ensures part.Ready() && part.Disc() == old(part.Disc()) && part.Outside() == old(part.Outside())
    ensures ok <==> GetB16(part.Disc()[0], 0x1FE) == MAGIC
    ensures ok ==> part.io.held == old(part.io.held) && part.Slack() == old(part.Slack())
    ensures !ok ==> |part.io.held| == |old(part.io.held)| + 1 && part.Slack() == old(part.Slack()) - 1
  {
    hide CacheOk, Partition.Disc, Partition.Outside, Partition.Slack, GetB16;
    var bp := part.GetSect(0, IOM_MODE_READONLY + IOM_MODE_EXP_REQ);
    var buf := part.Load(bp, 0);
    if GetB16(buf, 0x1FE) != MAGIC {
      return false;
    }
    part.RelSect(bp);
    return true;
  }

  /** Byte 510 is 0x55 and byte 511 is 0xAA. */
  ghost predicate Marked(s: Sector) {
    s[510] == 0x55 && s[511] == 0xAA
  }

  /** The size of a FAT that a boot sector gives: two bytes at 22, or if they are zero, four at 36, the lowest first. */
  ghost function FatSize(s: Sector): int {
    if s[22] != 0 || s[23] != 0 then Two(s[22], s[23])
    else Four(s[36], s[37], s[38], s[39])
  }

  /** The size of the volume: two bytes at 19, or four at 32. */
  ghost function VolumeSize(s: Sector): int {
    if s[19] != 0 || s[20] != 0 then Two(s[19], s[20])
    else Four(s[32], s[33], s[34], s[35])
  }

  /** Sectors of 512 bytes, a cluster size that is a power of two up to 64, at least one reserved sector, and a FAT no
      larger than the partition. */
  ghost predicate Acceptable(s: Sector, count: nat) {
    && s[11] == 0 && s[12] == 2
    && (s[13] == 1 || s[13] == 2 || s[13] == 4 || s[13] == 8 || s[13] == 16 || s[13] == 32 || s[13] == 64)
    && (s[14] != 0 || s[15] != 0)
    && FatSize(s) <= count
  }

  /** `g` is the volume of that many sectors, with those numbers of reserved sectors, FATs, root directory entries, and
      sectors per cluster and FAT: it has the clusters that fit behind the reserved sectors, the FATs and the root area, is
      FAT12 below 4085 of them and FAT16 below 65525, and has its data behind all that. */
  ghost predicate Describes(size: int, reserved: int, fats: int, fatSize: int, fatSize16: int, roots: int, spc: int, root: int,
                            g: Geometry) {
    && g.spc == spc && g.reserved == reserved && g.numFats == fats && g.rootEntries == roots
    && g.fatSectors == fatSize && g.sectorCount == size
    && g.dcc == Quotient((size - reserved - fats * fatSize - (32 * roots + 511) / 512) % 0x1_0000_0000, spc)
    && g.fatType == (if g.dcc < 4085 then FAT12 else if g.dcc < 65525 then FAT16 else FAT32)
    && g.rootCluster == (if g.fatType == FAT32 then root else 0)
    && g.firstSectorRootDir ==
       (if g.fatType != FAT32 then reserved + fats * fatSize16
        else reserved + fats * (if fatSize16 == 0 then fatSize else 0) + (root - 2) * spc) % 0x1_0000_0000
    && forall c :: 2 <= c ==>
         ClusterToSector(g, c) == reserved + fats * fatSize + (if g.fatType == FAT32 then 0 else roots / 16) + (c - 2) * spc
  }

  /** `g` is the volume the bytes of an acceptable boot sector describe. */
  ghost predicate Described(s: Sector, g: Geometry) {
    Describes(VolumeSize(s), Two(s[14], s[15]), s[16], FatSize(s), Two(s[22], s[23]), Two(s[17], s[18]), s[13],
              Four(s[44], s[45], s[46], s[47]), g)
  }

  ghost function Quotient(x: int, d: int): int {
    if d == 0 then 0 else x / d
  }

  /** fs_loadVolumeId, fs_verifySanity, fs_countDataSectors, fs_determineFatType and fs_clusterToSector in terms of the
      boot sector's bytes. */
  lemma MountDescribes(s: Sector, count: nat)
    ensures GetB16(s, 0x1FE) == MAGIC <==> Marked(s)
    ensures VerifySanity(LoadVolumeId(s), count) <==> Acceptable(s, count)
    ensures Acceptable(s, count) ==> Described(s, Mount(LoadVolumeId(s)))
  {
    FieldsLoaded(s);
    if Acceptable(s, count) {
      MountIs(LoadVolumeId(s));
      hide LoadVolumeId, Mount, VolumeSize, FatSize, Describes, Two, Four;
    }
  }

  lemma FieldsLoaded(s: Sector)
    ensures var v := LoadVolumeId(s);
            && v.bytesPerSector == Two(s[11], s[12]) && v.sectorsPerCluster == s[13] && v.reservedSectorCount == Two(s[14], s[15])
            && v.numberOfFats == s[16] && v.rootEntryCount == Two(s[17], s[18])
            && v.sectorCount16 == Two(s[19], s[20]) && v.fatSectorCount16 == Two(s[22], s[23])
            && v.rootCluster == Four(s[44], s[45], s[46], s[47])
            && SectorCount(v) == VolumeSize(s) && FatSectorCount(v) == FatSize(s)
    ensures GetB16(s, 0x1FE) == Two(s[510], s[511])
  {
  }

  lemma MountIs(v: VolumeId)
    requires v.bytesPerSector == 512 && v.sectorsPerCluster > 0
    ensures Describes(SectorCount(v), v.reservedSectorCount, v.numberOfFats, FatSectorCount(v), v.fatSectorCount16,
                      v.rootEntryCount, v.sectorsPerCluster, v.rootCluster, Mount(v))
  {
    MountedFields(v);
    ClustersCounted(v);
    hide DataBase, DataClusterCount;
    Commute(v.numberOfFats, FatSectorCount(v));
  }

  lemma ClustersCounted(v: VolumeId)
    requires v.bytesPerSector == 512 && v.sectorsPerCluster > 0
    ensures Mount(v).dcc == Quotient((SectorCount(v) - v.reservedSectorCount - v.numberOfFats * FatSectorCount(v)
                                      - (32 * v.rootEntryCount + 511) / 512) % 0x1_0000_0000, v.sectorsPerCluster)
  {
  }

  /** A 1.44 MB floppy disk has 2847 clusters and is FAT12; its first cluster is sector 33. */
  lemma Floppy(s: Sector)
    requires s[11..24] == [0, 2, 1, 1, 0, 2, 224, 0, 64, 11, 0xF0, 9, 0]
    ensures Acceptable(s, 2880)
    ensures var g := Mount(LoadVolumeId(s));
            g.dcc == 2847 && g.fatType == FAT12 && g.rootEntries == 224 && g.sectorCount == 2880 && ClusterToSector(g, 2) == 33
  {
    var b := s[11..24];
    assert s[11] == b[0] && s[12] == b[1] && s[13] == b[2] && s[14] == b[3] && s[15] == b[4] && s[16] == b[5] && s[17] == b[6];
    assert s[18] == b[7] && s[19] == b[8] && s[20] == b[9] && s[22] == b[11] && s[23] == b[12];
    hide LoadVolumeId, Mount, ClusterToSector, Describes;
    MountDescribes(s, 2880);
    FloppyNumbers(Four(s[44], s[45], s[46], s[47]), Mount(LoadVolumeId(s)));
  }

  lemma FloppyNumbers(root: int, g: Geometry)
    requires Describes(2880, 1, 2, 9, 9, 224, 1, root, g)
    ensures g.dcc == 2847 && g.fatType == FAT12 && g.rootEntries == 224 && g.sectorCount == 2880 && ClusterToSector(g, 2) == 33
  {
    hide ClusterToSector;
  }

  /** fs_initFs: -1 without the magic number, -2 if the parameters are not sane, otherwise 0 and the geometry. */
  method InitFs(part: Partition) returns (r: int, g: Geometry)
    requires part.Ready() && part.count > 0 && part.Slack() > 0
    modifies part.io
    ensures part.Ready() && part.Disc() == old(part.Disc()) && part.Outside() == old(part.Outside())
    ensures var s, v := part.Disc()[0], LoadVolumeId(part.Disc()[0]);
            && r == (if GetB16(s, 0x1FE) != MAGIC then -1 else if !VerifySanity(v, part.count) then -2 else 0)
            && (r == 0 ==> VerifySanity(v, part.count) && g == Mount(v))
    ensures var s := part.Disc()[0];
            && (r == -1 <==> !Marked(s)) && (r == -2 <==> Marked(s) && !Acceptable(s, part.count))
            && (r == 0 <==> Marked(s) && Acceptable(s, part.count))
            && (r == 0 ==> Described(s, g))
    ensures r != -1 ==> part.io.held == old(part.io.held) && part.Slack() == old(part.Slack())
  {
    hide CacheOk, Partition.Disc, Partition.Outside, Partition.Slack, GetB16, GetB32, Mount, Marked, Acceptable, Described, LoadVolumeId;
    MountDescribes(part.Disc()[0], part.count);
    g := Geometry(FAT12, 0, 0, 0, 0, 0, 0, 0, 0, 0);
    var ok := IsValidFat(part);
    if !ok {
      return -1, g;
    }
    var bp := part.GetSect(0, IOM_MODE_READONLY + IOM_MODE_EXP_REQ);
    var buf := part.Load(bp, 0);
    var v := LoadVolumeId(buf);
    part.RelSect(bp);
    if !VerifySanity(v, part.count) {
      return -2, g;
    }
    return 0, Mount(v);
  }

  /** A device formatted as one partition, then a cache with the given buffers over it, a mount and a closed file: work
      can begin on an empty consistent volume if the sector count meets the condition for the FAT to have room for the
      entries of all clusters, and the FAT has room for them only then. One buffer and one stack slot are enough. */
  method Start(dev: array<Sector>, numit: nat, mem: seq<Sector>, reference: seq<Byte>) returns (s: Session)
    requires ENOUGH_SECTORS <= dev.Length < UINT32
    requires 0 < |mem| == |reference| && numit <= 0xFF
    modifies dev
    ensures fresh(s) && s.f.fs.g.fatType == FAT32 && s.f.fs.g.dcc >= MIN_CLUSTERS
    ensures FatCovers(s.f.fs.g) <==> Covers(dev.Length, ChosenSize(dev.Length))
    ensures Covers(dev.Length, ChosenSize(dev.Length)) ==>
              && s.Valid() && s.Model() == Model(map[], Interval(3, s.f.fs.g.dcc + 2))
              && s.f.fs.part.Slack() == Least(Capacity(|mem|, numit), 0xFF)
  {
    hide CacheOk, Partition.Disc, Partition.Slack, FatSectors, Clusters, Formatted, BootSector, Fat, Consistent, Contents, Free, WellFormed;
    hide Partition.Ready, FatCovers, Covers, SettledSize, FirstFitting;
    ghost var disc := dev[..];
    ghost var c, fs;
    var r;
    r, c, fs := MakeVfat(dev);
    SettledFacts(|disc|, c);
    SettledIsChosen(|disc|, c);
    FormattedCovers(|disc|, c);
    var volume := MountFormatted(dev[..], numit, mem, reference, disc, c);
    var cache := new ClusterChain(0);
    var f := new File(volume, cache);
    s := new Session(f, {2}, RootArea(volume.g), map[]);
    if Covers(|disc|, c) {
      FormattedConsistent(disc, c);
    }
  }

  function Least(a: nat, b: nat): nat { if a < b then a else b }

  lemma SettledFacts(ns: nat, c: nat)
    requires c in CLUSTER_SIZES && Sized(ns, c) && Clusters(ns, c) >= MIN_CLUSTERS
    requires forall d :: d in CLUSTER_SIZES && d > c ==> Clusters(ns, d) < MIN_CLUSTERS
    ensures SettledSize(ns, c) && c > 0
  {
    hide Clusters;
  }

  /** A formatted device behind a new cache, mounted. */
  method MountFormatted(dev: seq<Sector>, numit: nat, mem: seq<Sector>, reference: seq<Byte>, ghost disc: seq<Sector>, ghost c: nat)
    returns (volume: FileSystem)
    requires 0 < |mem| == |reference| && numit <= 0xFF
    requires c > 0 && RESERVED <= |disc| && SettledSize(|disc|, c) && dev == Formatted(disc, c, FatSectors(|disc|, c))
    ensures fresh(volume) && volume.g == FormattedGeometry(|disc|, c) && volume.part.count == |disc|
    ensures Covers(|disc|, c) ==> volume.Ok() && volume.part.Disc() == dev && volume.part.Slack() == Least(Capacity(|mem|, numit), 0xFF)
  {
    hide CacheOk, FatSectors, Clusters, Formatted, BootSector, Mount, VerifySanity, SettledSize, LoadVolumeId, Covers;
    var io := new IOManager(numit, dev, mem, reference);
    var part := new Partition(io, 0, |dev|);
    Whole(part);
    assert part.Slack() == Least(Capacity(|mem|, numit), 0xFF);
    var r, g := InitFs(part);
    FormattedBoot(disc, c);
    volume := new FileSystem(part, g);
    if Covers(|disc|, c) {
      FormattedHasFat(|disc|, c);
    }
  }

  lemma Whole(part: Partition)
    requires part.Ready() && part.lba == 0 && part.count == |part.io.view|
    ensures part.Disc() == part.io.view
  {
  }

  lemma FormattedBoot(disc: seq<Sector>, c: nat)
    requires c > 0 && 0 < |disc| && SettledSize(|disc|, c)
    ensures var s := Formatted(disc, c, FatSectors(|disc|, c))[0];
            && GetB16(s, 0x1FE) == MAGIC && VerifySanity(LoadVolumeId(s), |disc|)
            && Mount(LoadVolumeId(s)) == FormattedGeometry(|disc|, c)
  {
    hide FatSectors, Clusters, BootSector;
    FormatThenMount(|disc|, c);
    ClustersExactly(|disc|, c);
    BootLoads(c, FatSectors(|disc|, c), |disc|);
  }
}
