/** A formatted partition, mounted: the geometry, the FAT, and a consistent empty volume. */
module Formats {
  import opened Arith
  import opened Bytes
  import opened Geometries
  import opened FatEntries
  import opened Chains
  import opened FileData
  import opened Files
  import opened FileOpen
  import opened Runs
  import opened Volumes
  import opened Catalogs
  import opened VolumeModels
  import opened Sessions
  import opened Mkfs
  import opened Coverage

  /** The fields the file system loads from the boot sector. */
  function WrittenId(c: nat, fs: nat, ns: nat): VolumeId {
    VolumeId(512, c, RESERVED, 2, 0, 0, 0, ns, fs, 2)
  }

  lemma HeadFields(c: nat)
    requires c < 256
    ensures var h := BootHead(c);
            && GetB16(h, 0x0B) == 512 && h[0x0D] == c && GetB16(h, 0x0E) == RESERVED && h[0x10] == 2
            && GetB16(h, 0x11) == 0 && GetB16(h, 0x13) == 0 && GetB16(h, 0x16) == 0
  {
  }

  /** A later store elsewhere leaves a field alone. */
  lemma Kept(s: Sector, off: nat, bs: seq<Byte>, o: nat)
    requires off + |bs| <= 512 && o + 4 <= 512
    ensures o + 2 <= off || off + |bs| <= o ==> GetB16(Splice(s, off, bs), o) == GetB16(s, o)
    ensures o + 4 <= off || off + |bs| <= o ==> GetB32(Splice(s, off, bs), o) == GetB32(s, o)
    ensures o + 1 <= off || off + |bs| <= o ==> Splice(s, off, bs)[o] == s[o]
  {
  }

  /** Everything behind the three 32-bit fields. */
  lemma BootTail(s: Sector, o: nat)
    requires o + 4 <= 67
    ensures var b4 := Splice(s, 67, Le32(0x1337_1337));
            var b5 := Splice(b4, 71, Ascii("DISCOSMASH!"));
            var b6 := Splice(b5, 82, Ascii("FAT32   "));
            var b7: Sector := Splice(b6, 510, [0x55, 0xAA]);
            && GetB16(b7, o) == GetB16(s, o) && GetB32(b7, o) == GetB32(s, o) && b7[o] == s[o] && GetB16(b7, 0x1FE) == 0xAA55
  {
    var b4 := Splice(s, 67, Le32(0x1337_1337));
    var b5 := Splice(b4, 71, Ascii("DISCOSMASH!"));
    var b6 := Splice(b5, 82, Ascii("FAT32   "));
    Kept(s, 67, Le32(0x1337_1337), o);
    Kept(b4, 71, Ascii("DISCOSMASH!"), o);
    Kept(b5, 82, Ascii("FAT32   "), o);
    Kept(b6, 510, [0x55, 0xAA], o);
    hide GetB32, Ascii;
  }

  /** The boot sector is read back as it was meant, and its magic number is right. */
  lemma BootLoads(c: nat, fs: nat, ns: nat)
    requires c < 256 && fs < UINT32 && ns < UINT32
    ensures LoadVolumeId(BootSector(c, fs, ns)) == WrittenId(c, fs, ns)
    ensures GetB16(BootSector(c, fs, ns), 0x1FE) == 0xAA55
  {
    HeadFields(c);
    hide BootHead;
    var h := BootHead(c);
    var b1 := Splice(h, 32, Le32(ns));
    var b2 := Splice(b1, 36, Le32(fs));
    var b3 := Splice(b2, 44, Le32(2));
    Le32RoundTrip(h, 32, ns);
    Le32RoundTrip(b1, 36, fs);
    Le32RoundTrip(b2, 44, 2);
    hide GetB16, GetB32, Splice, Le32;
    Field(h, ns, fs, 0x0B); Field(h, ns, fs, 0x0D); Field(h, ns, fs, 0x0E); Field(h, ns, fs, 0x10);
    Field(h, ns, fs, 0x11); Field(h, ns, fs, 0x13); Field(h, ns, fs, 0x16);
    Kept(b1, 36, Le32(fs), 0x20);
    Kept(b2, 44, Le32(2), 0x20);
    Kept(b2, 44, Le32(2), 0x24);
    BootTail(b3, 0x0B); BootTail(b3, 0x0D); BootTail(b3, 0x0E); BootTail(b3, 0x10); BootTail(b3, 0x11);
    BootTail(b3, 0x13); BootTail(b3, 0x16); BootTail(b3, 0x20); BootTail(b3, 0x24); BootTail(b3, 0x2C);
  }

  /** A field in front of the three 32-bit fields. */
  lemma Field(h: Sector, ns: nat, fs: nat, o: nat)
    requires o + 4 <= 32
    ensures var b3 := Splice(Splice(Splice(h, 32, Le32(ns)), 36, Le32(fs)), 44, Le32(2));
            GetB16(b3, o) == GetB16(h, o) && b3[o] == h[o]
  {
    var b1 := Splice(h, 32, Le32(ns));
    var b2 := Splice(b1, 36, Le32(fs));
    Kept(h, 32, Le32(ns), o);
    Kept(b1, 36, Le32(fs), o);
    Kept(b2, 44, Le32(2), o);
    hide GetB16, Splice, Le32;
  }

  // ---- mounting ----

  /** What a volume of `ns` sectors formatted with clusters of `c` sectors is mounted as. */
  function FormattedGeometry(ns: nat, c: nat): Geometry
    requires c > 0
  {
    Geometry(FAT32, RESERVED, 2, 0, c, FatSectors(ns, c), ns, Clusters(ns, c), 2, RESERVED + 2 * FatSectors(ns, c))
  }

  /** The FAT of the volume has room for the entries of all clusters exactly under the condition on its size. */
  lemma FormattedCovers(ns: nat, c: nat)
    requires c > 0 && SettledSize(ns, c)
    ensures FatCovers(FormattedGeometry(ns, c)) <==> Covers(ns, c)
  {
    CoversIff(ns, c);
    hide FatSectors, Clusters, Covers;
  }

  /** Where it does not, the entry of the last cluster is looked for in the boot sector; if the leftover sectors make no
      cluster, so is that of the last cluster an allocation can take. */
  lemma EntryInBootSector(ns: nat, c: nat)
    requires c > 0 && SettledSize(ns, c) && !Covers(ns, c)
    ensures var g := FormattedGeometry(ns, c);
            && SectorAddress(g, g.dcc + 1) == 0
            && (Leftover(ns, c) < c <==> SectorAddress(g, g.dcc) == 0)
  {
    LastEntries(ns, c);
    hide FatSectors, Clusters, Covers;
    FatLargeEnough(ns, c);
  }

  /** The boot sector passes the sanity check and yields the formatter's own cluster count and FAT32. */
  lemma FormatThenMount(ns: nat, c: nat)
    requires c > 0 && SettledSize(ns, c)
    ensures var v := LoadVolumeId(BootSector(c, FatSectors(ns, c), ns));
            VerifySanity(v, ns) && Mount(v) == FormattedGeometry(ns, c)
  {
    hide FatSectors, Clusters, BootSector, Mount, VerifySanity, Per;
    ClustersExactly(ns, c);
    var fs := FatSectors(ns, c);
    BootLoads(c, fs, ns);
    WrittenCounts(c, fs, ns);
    MountWritten(c, fs, ns);
  }

  lemma WrittenCounts(c: nat, fs: nat, ns: nat)
    requires c > 0 && RESERVED + 2 * fs <= ns < UINT32
    ensures DataClusterCount(WrittenId(c, fs, ns)) == Per(ns - RESERVED - 2 * fs, c)
  {
    var v := WrittenId(c, fs, ns);
    assert Overhead(v) == RESERVED + 2 * fs;
    assert (SectorCount(v) - Overhead(v)) % UINT32 == ns - RESERVED - 2 * fs;
  }

  lemma MountWritten(c: nat, fs: nat, ns: nat)
    requires c in CLUSTER_SIZES && RESERVED + 2 * fs <= ns < UINT32
    requires DataClusterCount(WrittenId(c, fs, ns)) >= MIN_CLUSTERS
    ensures var v := WrittenId(c, fs, ns);
            && VerifySanity(v, ns)
            && Mount(v) == Geometry(FAT32, RESERVED, 2, 0, c, fs, ns, DataClusterCount(v), 2, RESERVED + 2 * fs)
  {
    hide DataClusterCount;
  }

  /** If the loop runs through all cluster sizes, the volume cannot be mounted. */
  lemma RunThroughNotSane(ns: nat, fs: nat)
    requires fs < UINT32 && ns < UINT32
    ensures !VerifySanity(LoadVolumeId(BootSector(0, fs, ns)), ns)
  {
    hide BootSector;
    BootLoads(0, fs, ns);
  }

  // ---- the FAT ----

  function InitialEntry(k: nat): nat {
    if k == 0 || k == 2 then 0x0FFF_FFF8 else if k == 1 then 0x0FFF_FFFF else 0
  }

  lemma FirstEntries(k: nat)
    requires k < 128
    ensures GetB32(FirstFatSector(), 4 * k) == InitialEntry(k)
  {
    var z := Zero();
    var a := Splice(z, 0, Le32(0x0FFF_FFF8));
    var b := Splice(a, 4, Le32(0x0FFF_FFFF));
    Le32RoundTrip(z, 0, 0x0FFF_FFF8);
    Le32RoundTrip(a, 4, 0x0FFF_FFFF);
    Le32RoundTrip(b, 8, 0x0FFF_FFF8);
    assert GetB32(z, 4 * k) == 0;
    Kept(z, 0, Le32(0x0FFF_FFF8), 4 * k);
    Kept(a, 4, Le32(0x0FFF_FFFF), 4 * k);
    Kept(b, 8, Le32(0x0FFF_FFF8), 4 * k);
    hide GetB32, Splice, Le32;
  }

  /** Every entry both FATs have room for is as it should be: the two reserved ones, the root directory's, and zeros. */
  lemma FormattedEntries(disc: seq<Sector>, c: nat, fs: nat, copy: nat, k: nat)
    requires RESERVED + 2 * fs <= |disc| && copy < 2 && k < 128 * fs
    ensures RESERVED + copy * fs + k / 128 < |disc|
    ensures GetB32(Formatted(disc, c, fs)[RESERVED + copy * fs + k / 128], 4 * (k % 128)) == InitialEntry(k)
  {
    hide BootSector, GetB32;
    assert k / 128 < fs;
    assert copy * fs == if copy == 0 then 0 else fs;
    FirstEntries(k % 128);
    ZeroEntry(k % 128);
    hide FirstFatSector, Zero;
  }

  lemma ZeroEntry(k: nat)
    requires k < 128
    ensures GetB32(Zero(), 4 * k) == 0
  {
  }

  lemma {:induction false} FormattedWellFormed(ns: nat, c: nat)
    requires c > 0 && SettledSize(ns, c) && Covers(ns, c)
    ensures WellFormed(FormattedGeometry(ns, c), ns)
  {
    FormattedCovers(ns, c);
    if c < 64 { SmallVolume(ns); }
    hide FatSectors, Clusters, Covers;
    FatLargeEnough(ns, c);
    var dc := Clusters(ns, c);
    MulMono(1, c, dc);
    Commute(c, dc);
  }

  /** If the FAT has room for the entries of all clusters, it holds the root directory's chain and nothing else. */
  lemma FormattedFat(disc: seq<Sector>, c: nat)
    requires c > 0 && SettledSize(|disc|, c) && Covers(|disc|, c)
    ensures var g := FormattedGeometry(|disc|, c);
            var disc' := Formatted(disc, c, g.fatSectors);
            && HasFat(g, disc') && Numbered(FAT32, Fat(g, disc')) && IsChain(FAT32, Fat(g, disc'), [2])
            && (forall k :: 0 <= k < g.dcc + 2 ==> Fat(g, disc')[k] == InitialEntry(k))
  {
    hide FatSectors, Clusters, Formatted, Fat, Numbered, SettledSize, InitialEntry, Covers;
    var g := FormattedGeometry(|disc|, c);
    var disc' := Formatted(disc, c, g.fatSectors);
    FormattedHasFat(|disc|, c);
    forall k | 0 <= k < g.dcc + 2 ensures Fat(g, disc')[k] == InitialEntry(k) {
      ReadEntry(g, disc', k);
      FormattedEntries(disc, c, g.fatSectors, 0, k);
    }
    RootChain(g, Fat(g, disc'));
  }

  lemma FormattedHasFat(ns: nat, c: nat)
    requires c > 0 && SettledSize(ns, c) && Covers(ns, c)
    ensures var g := FormattedGeometry(ns, c);
            && WellFormed(g, ns) && g.dcc + 2 <= 128 * g.fatSectors && RESERVED + 2 * g.fatSectors <= ns && 0 < g.dcc
            && Numbered(FAT32, seq(g.dcc + 2, _ => 0))
  {
    FormattedWellFormed(ns, c);
    ClustersExactly(ns, c);
    hide FatSectors, Clusters, Covers;
  }

  lemma RootChain(g: Geometry, fat: seq<nat>)
    requires 0 < g.dcc && |fat| == g.dcc + 2 && Numbered(FAT32, seq(g.dcc + 2, _ => 0)) && fat[2] == InitialEntry(2)
    ensures Numbered(FAT32, fat) && IsChain(FAT32, fat, [2])
  {
  }

  // ---- the formatted volume as a place for files ----

  /** The sectors of the root directory's cluster. */
  ghost function RootArea(g: Geometry): set<nat> {
    set s: nat | s < ClusterToSector(g, 2) + g.spc && InCluster(g, 2, s)
  }

  lemma RootDirectoryArea(g: Geometry, count: nat)
    requires WellFormed(g, count) && g.dcc > 0
    ensures DirectoryArea(g, count, {2}, RootArea(g))
  {
    forall s | s in RootArea(g)
      ensures g.reserved + g.fatSectors <= s < count
      ensures forall c :: 2 <= c < g.dcc + 2 && c !in {2} ==> !InCluster(g, c, s)
    {
      ClusterInside(g, count, 2, s - ClusterToSector(g, 2));
      forall c | 2 <= c < g.dcc + 2 && c != 2 ensures !InCluster(g, c, s) {
        if InCluster(g, c, s) { ClustersDisjoint(g, 2, s - ClusterToSector(g, 2), c, s - ClusterToSector(g, c)); }
      }
    }
  }

  /** Only the root directory's cluster is taken. */
  lemma InitialFree(fat: seq<nat>)
    requires |fat| > 2 && forall k :: 0 <= k < |fat| ==> fat[k] == InitialEntry(k)
    ensures Free(fat) == Interval(3, |fat|)
  {
  }

  /** Format, mount, and there is a consistent volume without files: all clusters but the root directory's are free. */
  lemma FormattedConsistent(disc: seq<Sector>, c: nat)
    requires c > 0 && SettledSize(|disc|, c) && Covers(|disc|, c)
    ensures var g := FormattedGeometry(|disc|, c);
            var disc' := Formatted(disc, c, g.fatSectors);
            && HasFat(g, disc')
            && Consistent(g, |disc|, disc', Fat(g, disc'), map[], {2}, RootArea(g))
            && Abstract(g, disc', Fat(g, disc'), map[]) == Model(map[], Interval(3, g.dcc + 2))
  {
    hide FatSectors, Clusters, Formatted, Fat, SettledSize, Covers;
    var g := FormattedGeometry(|disc|, c);
    FormattedFat(disc, c);
    FormattedHasFat(|disc|, c);
    RootDirectoryArea(g, |disc|);
    hide WellFormed, DirectoryArea, RootArea;
    InitialFree(Fat(g, Formatted(disc, c, g.fatSectors)));
  }

  /** A size for which the FAT is too small: 66722 sectors make 65664 clusters, and a FAT with entries 0 to 65663. */
  lemma FatTooSmall()
    ensures SettledSize(66722, 1) && FatSectors(66722, 1) == 513 && Clusters(66722, 1) == 128 * 513
    ensures !Covers(66722, 1) && !FatCovers(FormattedGeometry(66722, 1))
  {
    hide Estimate, FatSectors, Clusters;
    OneSectorClusters(66722);
    forall d | d in CLUSTER_SIZES && d > 1 ensures Clusters(66722, d) < MIN_CLUSTERS {
      FatLargeEnough(66722, d);
      MulMono(2, d, Clusters(66722, d));
      Commute(d, Clusters(66722, d));
    }
    FatSectorsAre(66722, 1);
    ClustersExactly(66722, 1);
    FormattedCovers(66722, 1);
  }
}
