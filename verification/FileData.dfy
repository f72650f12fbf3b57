/** The bytes stored on a cluster chain, seen as one string. */
module FileData {
  import opened Arith
  import opened Bytes
  import opened Geometries
  import opened Chains

  /** The clusters of `ch` are data clusters. */
  ghost predicate DataClusters(g: Geometry, ch: seq<nat>) {
    forall i :: 0 <= i < |ch| ==> IsCluster(g, ch[i])
  }

  /** How many sectors a chain has. */
  function Sectors(g: Geometry, ch: seq<nat>): nat {
    |ch| * g.spc
  }

  /** Sector `q` of a chain: sector q % spc of cluster q / spc. */
  function SectorOf(g: Geometry, ch: seq<nat>, q: nat): nat {
    if g.spc == 0 then 0 else SectorIn(g, ch, q / g.spc, q % g.spc)
  }

  function SectorIn(g: Geometry, ch: seq<nat>, c: nat, k: nat): nat {
    if c < |ch| && ch[c] >= 2 then ClusterToSector(g, ch[c]) + k else 0
  }

  function ByteAt(disc: seq<Sector>, s: nat, off: nat): Byte {
    if s < |disc| && off < 512 then disc[s][off] else 0
  }

  /** The bytes of a chain. */
  function ChainBytes(g: Geometry, disc: seq<Sector>, ch: seq<nat>): (bs: seq<Byte>)
    ensures |bs| == 512 * Sectors(g, ch)
  {
    seq(512 * Sectors(g, ch), i requires i >= 0 => ByteAt(disc, SectorOf(g, ch, i / 512), i % 512))
  }

  /** Where a chain's bytes are on the disc: those of its cluster number `c` in the sectors that belong to it, behind the
      reserved sectors, all FATs and, on FAT12 and FAT16, the root area of 16 entries a sector. */
  lemma ByteOnDisc(g: Geometry, count: nat, disc: seq<Sector>, ch: seq<nat>, c: nat, k: nat, off: nat)
    requires WellFormed(g, count) && |disc| == count && DataClusters(g, ch) && c < |ch| && k < g.spc && off < 512
    ensures var i := 512 * (c * g.spc + k) + off;
            var s := g.reserved + g.numFats * g.fatSectors + (if g.fatType == FAT32 then 0 else g.rootEntries / 16)
                     + (ch[c] - 2) * g.spc + k;
            && 0 <= i < |ChainBytes(g, disc, ch)| && 0 <= s < |disc|
            && ChainBytes(g, disc, ch)[i] == disc[s][off]
  {
    DivModUnique(c * g.spc + k, g.spc, c, k);
    MulMono(c + 1, |ch|, g.spc);
    assert (c + 1) * g.spc == c * g.spc + g.spc;
    Begins(g, ch[c]);
    hide WellFormed, ChainBytes, ClusterToSector;
    ByteOfSector(g, count, disc, ch, c * g.spc + k, off);
  }

  lemma Begins(g: Geometry, c: nat)
    requires c >= 2
    ensures ClusterToSector(g, c) == g.reserved + g.numFats * g.fatSectors + (if g.fatType == FAT32 then 0 else g.rootEntries / 16)
                                     + (c - 2) * g.spc
  {
    Commute(g.numFats, g.fatSectors);
  }

  /** A chain's sectors lie in the data area. */
  lemma SectorOnDisc(g: Geometry, count: nat, ch: seq<nat>, q: nat)
    requires WellFormed(g, count) && DataClusters(g, ch) && q < Sectors(g, ch)
    ensures q / g.spc < |ch|
    ensures g.reserved + g.fatSectors <= SectorOf(g, ch, q) < count
  {
    var c, k := Locate(g, count, ch, q);
    hide ClusterToSector, DataBase, WellFormed, Sectors;
    ClusterInside(g, count, ch[c], k);
  }

  /** Cluster and sector in the cluster. */
  lemma Locate(g: Geometry, count: nat, ch: seq<nat>, q: nat) returns (c: nat, k: nat)
    requires WellFormed(g, count) && q < Sectors(g, ch)
    ensures g.spc > 0 && c == q / g.spc < |ch| && k == q % g.spc < g.spc
    ensures q == c * g.spc + k
  {
    hide WellFormed;
    SplitBelow(q, |ch|, g.spc);
    c, k := q / g.spc, q % g.spc;
  }

  /** Different sectors of a chain are different sectors of the disc. */
  lemma SectorsDiffer(g: Geometry, count: nat, ch: seq<nat>, q: nat, q': nat)
    requires WellFormed(g, count) && DataClusters(g, ch) && Distinct(ch) && q < Sectors(g, ch) && q' < Sectors(g, ch)
    requires q != q'
    ensures SectorOf(g, ch, q) != SectorOf(g, ch, q')
  {
    hide WellFormed, ClusterToSector, Sectors;
    var c, k := Locate(g, count, ch, q);
    var c', k' := Locate(g, count, ch, q');
    PlacesDiffer(g, ch, c, k, c', k');
  }

  lemma PlacesDiffer(g: Geometry, ch: seq<nat>, c: nat, k: nat, c': nat, k': nat)
    requires Distinct(ch) && c < |ch| && c' < |ch| && k < g.spc && k' < g.spc
    requires c != c' || k != k'
    ensures ch[c] >= 2 && ch[c'] >= 2 ==> SectorIn(g, ch, c, k) != SectorIn(g, ch, c', k')
  {
    if ch[c] >= 2 && ch[c'] >= 2 { ClustersDisjoint(g, ch[c], k, ch[c'], k'); }
  }

  /** Byte `off` of sector `q`. */
  lemma ByteOfSector(g: Geometry, count: nat, disc: seq<Sector>, ch: seq<nat>, q: nat, off: nat)
    requires WellFormed(g, count) && |disc| == count && DataClusters(g, ch) && q < Sectors(g, ch) && off < 512
    ensures SectorOf(g, ch, q) < |disc|
    ensures 512 * q + off < 512 * Sectors(g, ch)
    ensures ChainBytes(g, disc, ch)[512 * q + off] == disc[SectorOf(g, ch, q)][off]
  {
    hide WellFormed, SectorOf, Sectors;
    SectorOnDisc(g, count, ch, q);
    assert (512 * q + off) / 512 == q && (512 * q + off) % 512 == off;
  }

  /** A stretch inside one sector. */
  lemma StretchOfSector(g: Geometry, count: nat, disc: seq<Sector>, ch: seq<nat>, q: nat, off: nat, n: nat)
    requires WellFormed(g, count) && |disc| == count && DataClusters(g, ch) && q < Sectors(g, ch) && off + n <= 512
    ensures SectorOf(g, ch, q) < |disc|
    ensures 512 * q + off + n <= 512 * Sectors(g, ch)
    ensures ChainBytes(g, disc, ch)[512 * q + off..512 * q + off + n] == disc[SectorOf(g, ch, q)][off..off + n]
  {
    hide WellFormed, SectorOf, Sectors, ChainBytes;
    SectorOnDisc(g, count, ch, q);
    if n > 0 { ByteOfSector(g, count, disc, ch, q, off + n - 1); }
    var l := ChainBytes(g, disc, ch)[512 * q + off..512 * q + off + n];
    var r := disc[SectorOf(g, ch, q)][off..off + n];
    forall k | 0 <= k < n ensures l[k] == r[k] {
      ByteOfSector(g, count, disc, ch, q, off + k);
    }
  }

  /** A store inside one sector of the chain is the same store in its bytes. */
  lemma StoreOnChain(g: Geometry, count: nat, disc: seq<Sector>, disc': seq<Sector>, ch: seq<nat>, q: nat, off: nat, bs: seq<Byte>)
    requires WellFormed(g, count) && |disc| == count && DataClusters(g, ch) && Distinct(ch)
    requires q < Sectors(g, ch) && off + |bs| <= 512 && SectorOf(g, ch, q) < |disc|
    requires disc' == disc[SectorOf(g, ch, q) := Splice(disc[SectorOf(g, ch, q)], off, bs)]
    ensures 512 * q + off + |bs| <= 512 * Sectors(g, ch)
    ensures ChainBytes(g, disc', ch) == Splice(ChainBytes(g, disc, ch), 512 * q + off, bs)
  {
    hide WellFormed, SectorOf, Sectors, ChainBytes, DataClusters;
    var l, r := ChainBytes(g, disc', ch), Splice(ChainBytes(g, disc, ch), 512 * q + off, bs);
    forall i | 0 <= i < |l| ensures l[i] == r[i] {
      var j, k := i / 512, i % 512;
      ByteOfSector(g, count, disc, ch, j, k);
      ByteOfSector(g, count, disc', ch, j, k);
      if j != q { SectorsDiffer(g, count, ch, j, q); }
    }
  }

  /** Sector `s` belongs to the chain. */
  ghost predicate OnChain(g: Geometry, ch: seq<nat>, s: nat) {
    exists q :: 0 <= q < Sectors(g, ch) && SectorOf(g, ch, q) == s
  }

  /** Nothing but sectors of the chain has changed. */
  ghost predicate OnlyChainChanged(g: Geometry, ch: seq<nat>, disc: seq<Sector>, disc': seq<Sector>) {
    |disc'| == |disc| && forall s :: 0 <= s < |disc| && disc'[s] != disc[s] ==> OnChain(g, ch, s)
  }

  /** A sector of one chain belongs to no chain without common clusters. */
  lemma ChainsApart(g: Geometry, count: nat, ch: seq<nat>, ch': seq<nat>, q: nat)
    requires WellFormed(g, count) && DataClusters(g, ch) && DataClusters(g, ch') && q < Sectors(g, ch')
    requires forall i :: 0 <= i < |ch'| ==> ch'[i] !in ch
    ensures !OnChain(g, ch, SectorOf(g, ch', q))
  {
    hide WellFormed, ClusterToSector, Sectors;
    var c', k' := Locate(g, count, ch', q);
    forall p | 0 <= p < Sectors(g, ch) ensures SectorOf(g, ch, p) != SectorOf(g, ch', q) {
      var c, k := Locate(g, count, ch, p);
      ClustersDisjoint(g, ch[c], k, ch'[c'], k');
      assert ch'[c'] != ch[c];
    }
  }

  /** One more store on the chain. */
  lemma ChainStoreFrame(g: Geometry, ch: seq<nat>, disc: seq<Sector>, disc': seq<Sector>, q: nat, bytes: Sector)
    requires OnlyChainChanged(g, ch, disc, disc') && q < Sectors(g, ch) && SectorOf(g, ch, q) < |disc|
    ensures OnlyChainChanged(g, ch, disc, disc'[SectorOf(g, ch, q) := bytes])
  {
    hide SectorOf, Sectors;
  }

  // ---- sectors outside the first FAT, and a file's directory entry ----

  /** Discs that agree behind the first FAT hold the same bytes on every chain. */
  lemma BytesBehindFat(g: Geometry, count: nat, ch: seq<nat>, disc: seq<Sector>, disc': seq<Sector>)
    requires WellFormed(g, count) && |disc| == |disc'| == count && DataClusters(g, ch)
    requires g.reserved + g.fatSectors <= count
    requires disc'[g.reserved + g.fatSectors..] == disc[g.reserved + g.fatSectors..]
    ensures ChainBytes(g, disc', ch) == ChainBytes(g, disc, ch)
  {
    hide WellFormed, SectorOf, Sectors;
    var b := g.reserved + g.fatSectors;
    forall i | 0 <= i < 512 * Sectors(g, ch)
      ensures ByteAt(disc', SectorOf(g, ch, i / 512), i % 512) == ByteAt(disc, SectorOf(g, ch, i / 512), i % 512)
    {
      SectorOnDisc(g, count, ch, i / 512);
      var s := SectorOf(g, ch, i / 512);
      assert disc'[b..][s - b] == disc[b..][s - b];
    }
  }

  /** Sector `s` is one of cluster `c`'s. */
  predicate InCluster(g: Geometry, c: nat, s: nat) {
    c >= 2 && ClusterToSector(g, c) <= s < ClusterToSector(g, c) + g.spc
  }

  /** Sector `s` lies in no cluster of the chain and in no free cluster. */
  ghost predicate Apart(g: Geometry, fat: seq<nat>, ch: seq<nat>, s: nat) {
    forall c :: 2 <= c < |fat| && (c in ch || fat[c] == 0) ==> !InCluster(g, c, s)
  }

  lemma ApartNotOnChain(g: Geometry, count: nat, fat: seq<nat>, ch: seq<nat>, s: nat)
    requires WellFormed(g, count) && |fat| == g.dcc + 2 && DataClusters(g, ch) && Apart(g, fat, ch, s)
    ensures !OnChain(g, ch, s)
  {
    hide WellFormed, ClusterToSector, Sectors;
    forall q | 0 <= q < Sectors(g, ch) ensures SectorOf(g, ch, q) != s {
      var c, k := Locate(g, count, ch, q);
      assert !InCluster(g, ch[c], s);
    }
  }

  /** Only the first FAT and the chain's sectors differ. */
  ghost predicate OnlyFileChanged(g: Geometry, ch: seq<nat>, disc: seq<Sector>, disc': seq<Sector>) {
    && |disc'| == |disc|
    && forall s :: 0 <= s < |disc| && disc'[s] != disc[s] ==> g.reserved <= s < g.reserved + g.fatSectors || OnChain(g, ch, s)
  }

  /** Writing a file changes no byte of another. */
  lemma OtherChainKept(g: Geometry, count: nat, ch: seq<nat>, ch': seq<nat>, disc: seq<Sector>, disc': seq<Sector>)
    requires WellFormed(g, count) && |disc| == count && DataClusters(g, ch) && DataClusters(g, ch')
    requires forall i :: 0 <= i < |ch'| ==> ch'[i] !in ch
    requires OnlyFileChanged(g, ch, disc, disc')
    ensures ChainBytes(g, disc', ch') == ChainBytes(g, disc, ch')
  {
    hide WellFormed, SectorOf, Sectors, OnChain;
    forall i | 0 <= i < 512 * Sectors(g, ch')
      ensures ByteAt(disc', SectorOf(g, ch', i / 512), i % 512) == ByteAt(disc, SectorOf(g, ch', i / 512), i % 512)
    {
      ChainsApart(g, count, ch, ch', i / 512);
      SectorOnDisc(g, count, ch', i / 512);
    }
  }

  /** First the FAT, then the chain. */
  lemma FatThenChain(g: Geometry, ch: seq<nat>, d0: seq<Sector>, d1: seq<Sector>, d2: seq<Sector>)
    requires |d0| == |d1| && g.reserved + g.fatSectors <= |d0|
    requires d1[..g.reserved] == d0[..g.reserved] && d1[g.reserved + g.fatSectors..] == d0[g.reserved + g.fatSectors..]
    requires OnlyChainChanged(g, ch, d1, d2)
    ensures OnlyFileChanged(g, ch, d0, d2)
  {
    hide OnChain;
    var a, b := g.reserved, g.reserved + g.fatSectors;
    forall s | 0 <= s < |d0| && !(a <= s < b) ensures d1[s] == d0[s] {
      if s < a { assert d1[..a][s] == d0[..a][s]; } else { assert d1[b..][s - b] == d0[b..][s - b]; }
    }
  }

  /** A longer chain starts with the bytes of the shorter one. */
  lemma BytesPrefix(g: Geometry, disc: seq<Sector>, ch: seq<nat>, xs: seq<nat>)
    ensures Sectors(g, ch) <= Sectors(g, ch + xs)
    ensures ChainBytes(g, disc, ch + xs)[..512 * Sectors(g, ch)] == ChainBytes(g, disc, ch)
  {
    MulMono(|ch|, |ch + xs|, g.spc);
    forall i | 0 <= i < 512 * Sectors(g, ch) ensures SectorOf(g, ch + xs, i / 512) == SectorOf(g, ch, i / 512) {
      SplitBelow(i / 512, |ch|, g.spc);
    }
  }

  /** `data` written at `offset` into the string `s`, which grows if need be. */
  function Spliced<T>(s: seq<T>, offset: nat, data: seq<T>): (r: seq<T>)
    requires offset <= |s|
    ensures |r| == if offset + |data| > |s| then offset + |data| else |s|
  {
    s[..offset] + data + if offset + |data| < |s| then s[offset + |data|..] else []
  }

  /** Writing into the bytes of the clusters is writing into the file they hold. */
  lemma OverlaySplices(raw: seq<Byte>, fileSize: nat, offset: nat, data: seq<Byte>)
    requires offset <= fileSize <= |raw| && offset + |data| <= |raw|
    ensures Splice(raw, offset, data)[..if offset + |data| > fileSize then offset + |data| else fileSize]
         == Spliced(raw[..fileSize], offset, data)
  {
  }
}
