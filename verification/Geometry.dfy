/** Volume parameters, the FAT type, and where clusters lie on the partition. */
module Geometries {
  import opened Arith
  import opened Bytes

  datatype FatType = FAT12 | FAT16 | FAT32

  /** The boot sector fields the file system loads. */
  datatype VolumeId = VolumeId(bytesPerSector: nat, sectorsPerCluster: nat, reservedSectorCount: nat, numberOfFats: nat,
                               rootEntryCount: nat, sectorCount16: nat, fatSectorCount16: nat,
                               sectorCount32: nat, fatSectorCount32: nat, rootCluster: nat)

  /** The mounted volume: what the FileSystem object keeps after fs_initFs. */
  datatype Geometry = Geometry(fatType: FatType, reserved: nat, numFats: nat, rootEntries: nat, spc: nat,
                               fatSectors: nat, sectorCount: nat, dcc: nat, rootCluster: nat, firstSectorRootDir: nat)

  /** fs_loadVolumeId */
  function LoadVolumeId(s: Sector): VolumeId {
    VolumeId(GetB16(s, 0x0B), s[0x0D], GetB16(s, 0x0E), s[0x10], GetB16(s, 0x11), GetB16(s, 0x13), GetB16(s, 0x16),
             GetB32(s, 0x20), GetB32(s, 0x24), GetB32(s, 0x2C))
  }

  /** fs_verifySanity, for a partition of `numSectors` sectors. */
  predicate VerifySanity(v: VolumeId, numSectors: nat) {
    && v.bytesPerSector == 512
    && v.sectorsPerCluster in {1, 2, 4, 8, 16, 32, 64}
    && v.reservedSectorCount != 0
    && (if v.fatSectorCount16 != 0 then v.fatSectorCount16 <= numSectors else v.fatSectorCount32 <= numSectors)
  }

  function FatSectorCount(v: VolumeId): nat {
    if v.fatSectorCount16 != 0 then v.fatSectorCount16 else v.fatSectorCount32
  }

  function SectorCount(v: VolumeId): nat {
    if v.sectorCount16 != 0 then v.sectorCount16 else v.sectorCount32
  }

  function RootDirSectors(v: VolumeId): nat
    requires v.bytesPerSector > 0
  {
    (v.rootEntryCount * 32 + (v.bytesPerSector - 1)) / v.bytesPerSector
  }

  /** The sectors in front of the data area, as fs_countDataSectors counts them. */
  function Overhead(v: VolumeId): nat
    requires v.bytesPerSector > 0
  {
    v.reservedSectorCount + v.numberOfFats * FatSectorCount(v) + RootDirSectors(v)
  }

  /** fs_countDataSectors, in 32-bit unsigned arithmetic. */
  function DataClusterCount(v: VolumeId): nat
    requires v.bytesPerSector > 0 && v.sectorsPerCluster > 0
  {
    (SectorCount(v) - Overhead(v)) % UINT32 / v.sectorsPerCluster
  }

  /** fs_determineFatType: the cluster count alone decides, at the published limits. */
  function DetermineFatType(dcc: nat): FatType {
    if dcc < 4085 then FAT12 else if dcc < 65525 then FAT16 else FAT32
  }

  /** fs_countDataSectors, fs_determineFatType and fs_findFirstSectorRootDir together. */
  function Mount(v: VolumeId): Geometry
    requires v.bytesPerSector > 0 && v.sectorsPerCluster > 0
  {
    var dcc := DataClusterCount(v);
    var t := DetermineFatType(dcc);
    var root := if t == FAT32 then v.rootCluster else 0;
    var fat32 := if v.fatSectorCount16 != 0 then 0 else v.fatSectorCount32;
    Geometry(t, v.reservedSectorCount, v.numberOfFats, v.rootEntryCount, v.sectorsPerCluster,
             FatSectorCount(v), SectorCount(v), dcc, root,
             if t == FAT32 then
               (v.reservedSectorCount + v.numberOfFats * fat32 + (root - 2) * v.sectorsPerCluster) % UINT32
             else
               (v.reservedSectorCount + v.numberOfFats * v.fatSectorCount16) % UINT32)
  }

  /** Where the data area starts according to fs_clusterToSector. */
  function DataBase(g: Geometry): nat {
    g.reserved + g.fatSectors * g.numFats + if g.fatType == FAT32 then 0 else g.rootEntries / 16
  }

  /** fs_clusterToSector */
  function ClusterToSector(g: Geometry, cluster: nat): nat
    requires cluster >= 2
  {
    DataBase(g) + (cluster - 2) * g.spc
  }

  /** fs_sectorToCluster */
  function SectorToCluster(g: Geometry, sector: nat): nat
    requires sector >= DataBase(g) && g.spc > 0
  {
    var d := sector - DataBase(g);
    (d - d % g.spc) / g.spc + 2
  }

  /** A cluster that belongs to the data area. */
  predicate IsCluster(g: Geometry, c: int) {
    2 <= c < g.dcc + 2
  }

  /** The first FAT has room for the entry of every cluster. */
  predicate FatCovers(g: Geometry) {
    match g.fatType
    case FAT12 => 3 * (g.dcc + 2) <= 1024 * g.fatSectors
    case FAT16 => g.dcc + 2 <= 256 * g.fatSectors
    case FAT32 => g.dcc + 2 <= 128 * g.fatSectors
  }

  /** The premises under which the file system works: a type that matches the cluster count, a FAT that covers all
      clusters and fits in front of the data area, and a data area that fits on `count` sectors. */
  ghost predicate WellFormed(g: Geometry, count: nat) {
    && 0 < g.spc <= 64 && g.numFats > 0 && g.reserved > 0
    && g.fatType == DetermineFatType(g.dcc) && g.dcc + 2 <= 0xFFFFFF0
    && FatCovers(g) && g.reserved + g.fatSectors <= DataBase(g)
    && DataBase(g) + g.dcc * g.spc <= count <= UINT32
  }

  /** The mounted fields. */
  lemma MountedFields(v: VolumeId)
    requires v.bytesPerSector == 512 && v.sectorsPerCluster > 0
    ensures var g := Mount(v);
            && g.spc == v.sectorsPerCluster && g.dcc == DataClusterCount(v) && g.sectorCount == SectorCount(v)
            && DataBase(g) == v.reservedSectorCount + v.numberOfFats * FatSectorCount(v)
                              + (if g.fatType == FAT32 then 0 else v.rootEntryCount / 16)
  {
    hide DataClusterCount, FatSectorCount;
    Commute(v.numberOfFats, FatSectorCount(v));
  }

  lemma CountedClusters(v: VolumeId)
    requires v.bytesPerSector == 512 && v.sectorsPerCluster > 0
    requires Overhead(v) <= SectorCount(v) < UINT32
    ensures Overhead(v) + DataClusterCount(v) * v.sectorsPerCluster <= SectorCount(v)
  {
    hide Overhead;
    var d := SectorCount(v) - Overhead(v);
    assert d % UINT32 == d;
    DivTimes(d, v.sectorsPerCluster);
  }

  /** The data area of a mounted volume ends inside the volume; it starts after the root area exactly when the root
      area is a whole number of sectors (FAT12 and FAT16) or empty (FAT32). */
  lemma DataAreaPlacement(v: VolumeId)
    requires v.bytesPerSector == 512 && v.sectorsPerCluster > 0
    requires Overhead(v) <= SectorCount(v) < UINT32
    ensures var g := Mount(v);
            && DataBase(g) + g.dcc * g.spc <= g.sectorCount
            && DataBase(g) <= Overhead(v)
            && (ClusterToSector(g, 2) >= Overhead(v) <==>
                if g.fatType == FAT32 then v.rootEntryCount == 0 else v.rootEntryCount % 16 == 0)
  {
    hide Mount, DataBase, DataClusterCount, FatSectorCount, SectorCount;
    MountedFields(v);
    CountedClusters(v);
    assert 0 * Mount(v).spc == 0;
  }

  /** Every sector of a cluster lies in the data area. */
  lemma ClusterInside(g: Geometry, count: nat, c: nat, k: nat)
    requires WellFormed(g, count) && IsCluster(g, c) && k < g.spc
    ensures g.reserved + g.fatSectors <= DataBase(g) <= ClusterToSector(g, c) + k < count
  {
    MulMono(c - 1, g.dcc, g.spc);
    assert (c - 2) * g.spc + g.spc == (c - 1) * g.spc;
    MulMono(1, g.numFats, g.fatSectors);
    Commute(g.fatSectors, g.numFats);
    MulMono(0, c - 2, g.spc);
  }

  /** Distinct clusters have no sector in common. */
  lemma ClustersDisjoint(g: Geometry, c: nat, k: nat, c': nat, k': nat)
    requires c >= 2 && c' >= 2 && k < g.spc && k' < g.spc
    ensures ClusterToSector(g, c) + k == ClusterToSector(g, c') + k' ==> c == c' && k == k'
  {
    if c < c' {
      MulMono(c - 1, c' - 2, g.spc);
      assert (c - 1) * g.spc == (c - 2) * g.spc + g.spc;
    } else if c' < c {
      MulMono(c' - 1, c - 2, g.spc);
      assert (c' - 1) * g.spc == (c' - 2) * g.spc + g.spc;
    }
  }

  /** fs_sectorToCluster inverts fs_clusterToSector on every sector of the cluster. */
  lemma SectorToClusterInverts(g: Geometry, c: nat, k: nat)
    requires c >= 2 && k < g.spc
    ensures ClusterToSector(g, c) + k >= DataBase(g)
    ensures SectorToCluster(g, ClusterToSector(g, c) + k) == c
  {
    var q := c - 2;
    MulMono(0, q, g.spc);
    var d := q * g.spc + k;
    DivModUnique(d, g.spc, q, k);
    assert d - d % g.spc == q * g.spc;
    DivModUnique(q * g.spc, g.spc, q, 0);
  }
}
