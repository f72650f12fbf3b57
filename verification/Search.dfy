/** Looking for a record in a directory that lies on a cluster chain. */
module Searches {
  import opened Arith
  import opened Bytes
  import opened Geometries
  import opened FatEntries
  import opened Chains
  import opened FileData
  import opened Directories
  import opened Partitions
  import opened Slots
  import opened Fats
  import opened Files

  /** What is looked for: a file of that name, or a place for a new record. */
  datatype Sought = Named(name: FatName) | Unused

  /** Record `i` is what is looked for: it has that name, or its first byte is 0 or 0xE5. Records of long names, which have
      the low four attribute bits set, are not. */
  ghost predicate Hit(s: Sector, i: nat, what: Sought) {
    && i < 16 && s[32 * i + 11] % 16 != 15
    && match what
       case Named(name) => s[32 * i..32 * i + 11] == name
       case Unused => s[32 * i] == 0 || s[32 * i] == 0xE5
  }

  /** Only the records with all four attributes read-only, hidden, system and volume label (bits 0 to 3) are passed over. */
  lemma PassedOver(s: Sector, i: nat, name: FatName)
    requires i < 16
    ensures var a: int := s[32 * i + 11];
            var all := a % 2 == 1 && a / 2 % 2 == 1 && a / 4 % 2 == 1 && a / 8 % 2 == 1;
            && (Hit(s, i, Named(name)) <==> !all && forall k :: 0 <= k < 11 ==> s[32 * i..32 * i + 11][k] == name[k])
            && (Hit(s, i, Unused) <==> !all && (s[32 * i] == 0 || s[32 * i] == 0xE5))
  {
    LowFour(s[32 * i + 11]);
  }

  lemma LowFour(a: int)
    requires 0 <= a < 256
    ensures a % 16 == 15 <==> a % 2 == 1 && a / 2 % 2 == 1 && a / 4 % 2 == 1 && a / 8 % 2 == 1
  {
    var h, q, e := a / 2, a / 4, a / 8;
    assert a == 2 * h + a % 2 && h == 2 * q + h % 2 && q == 2 * e + q % 2 && e == 2 * (a / 16) + e % 2;
  }

  /** What is returned for it: the first cluster in bytes 26, 27, 20 and 21 of the record, or 1 for a file without clusters and
      for a free place. */
  ghost function Answer(s: Sector, i: nat, what: Sought): (r: int)
    requires i < 16
    ensures r > 0
  {
    var c := Four(s[32 * i + 26], s[32 * i + 27], s[32 * i + 20], s[32 * i + 21]);
    if what == Unused || c == 0 then 1 else c
  }

  /** strMatch: the number of bytes that differ. */
  method StrMatch(a: seq<Byte>, b: seq<Byte>) returns (res: nat)
    requires |a| == |b| < UINT16
    ensures res == 0 <==> a == b
    ensures res <= |a|
  {
    res := 0;
    for c := 0 to |a|
      invariant res <= c && (res == 0 <==> a[..c] == b[..c])
    {
      assert a[..c + 1] == a[..c] + [a[c]] && b[..c + 1] == b[..c] + [b[c]];
      if a[c] != b[c] {
        assert a[..c + 1][c] != b[..c + 1][c];
        res := res + 1;
      }
    }
    assert a[..|a|] == a && b[..|b|] == b;
  }

  /** dir_findinBuf with dir_findFileinBuf and dir_findFreeEntryinBuf: the first hit among the sixteen records. */
  method FindInBuf(buf: Sector, what: Sought) returns (r: nat, offset: nat)
    ensures r == 0 ==> forall i :: 0 <= i < 16 ==> !Hit(buf, i, what)
    ensures r != 0 ==> Hit(buf, offset, what) && r == Answer(buf, offset, what)
                       && forall i :: 0 <= i < offset ==> !Hit(buf, i, what)
  {
    for c := 0 to 16
      invariant forall i :: 0 <= i < c ==> !Hit(buf, i, what)
    {
      if buf[32 * c + 11] % 16 != 15 {
        match what
        case Named(name) =>
          var differ := StrMatch(buf[32 * c..32 * c + 11], name);
          if differ == 0 {
            return if RecordCluster(buf, c) == 0 then 1 else RecordCluster(buf, c), c;
          }
        case Unused =>
          if buf[32 * c] == 0 || buf[32 * c] == DELETED {
            return 1, c;
          }
      }
    }
    return 0, 0;
  }

  /** No record of sector `s` is a hit. */
  ghost predicate NoHit(disc: seq<Sector>, s: nat, what: Sought) {
    s < |disc| ==> forall i :: 0 <= i < 16 ==> !Hit(disc[s], i, what)
  }

  /** Nor any record of `n` sectors from `s` on. */
  ghost predicate NoneIn(disc: seq<Sector>, s: nat, n: nat, what: Sought) {
    forall j :: s <= j < s + n ==> NoHit(disc, j, what)
  }

  /** Record `offset` of sector `s` is the sector's first hit, with answer `r`. */
  ghost predicate FirstHit(disc: seq<Sector>, s: nat, offset: nat, what: Sought, r: nat) {
    && s < |disc| && Hit(disc[s], offset, what) && r == Answer(disc[s], offset, what)
    && forall i :: 0 <= i < offset ==> !Hit(disc[s], i, what)
  }

  /** dir_findinCluster: the first hit in the sectors of one cluster. */
  method FindInCluster(fs: FileSystem, cluster: nat, what: Sought) returns (r: nat, k: nat, offset: nat)
    requires fs.Ok() && fs.part.Slack() >= 1 && IsCluster(fs.g, cluster)
    modifies fs.part.io
    ensures fs.Untouched() && (r != 0 ==> k < fs.g.spc)
    ensures NoneIn(fs.part.Disc(), ClusterToSector(fs.g, cluster), if r == 0 then fs.g.spc else k, what)
    ensures r != 0 ==> FirstHit(fs.part.Disc(), ClusterToSector(fs.g, cluster) + k, offset, what, r)
  {
    hide Partition.Disc, Partition.Outside, Partition.Slack, FileSystem.Table, Partition.Ready, CacheOk, Fat, Rest;
    hide ClusterToSector, Hit, Answer, WellFormed;
    k, offset := 0, 0;
    while k < fs.g.spc
      invariant k <= fs.g.spc && fs.Untouched()
      invariant NoneIn(fs.part.Disc(), ClusterToSector(fs.g, cluster), k, what)
    {
      ClusterInside(fs.g, fs.part.count, cluster, k);
      var buf := fs.PeekSector(ClusterToSector(fs.g, cluster) + k);
      r, offset := FindInBuf(buf, what);
      if r != 0 {
        return;
      }
      k := k + 1;
    }
    r := 0;
  }

  /** None of the first `n` sectors of the chain has a hit. */
  ghost predicate NoHits(g: Geometry, disc: seq<Sector>, ch: seq<nat>, n: nat, what: Sought) {
    forall q :: 0 <= q < n ==> NoHit(disc, SectorOf(g, ch, q), what)
  }

  /** The sectors of the first `c` clusters of a chain. */
  function Upto(g: Geometry, c: nat): nat { c * g.spc }

  lemma OneCluster(g: Geometry, ch: seq<nat>, c: nat)
    requires c < |ch|
    ensures Upto(g, c + 1) == Upto(g, c) + g.spc <= Sectors(g, ch)
  {
    MulMono(c + 1, |ch|, g.spc);
  }

  lemma AllClusters(g: Geometry, ch: seq<nat>)
    ensures Upto(g, |ch|) == Sectors(g, ch)
  {
  }

  /** Sector `k` of cluster `c` of the chain. */
  lemma SectorAt(g: Geometry, ch: seq<nat>, c: nat, k: nat)
    requires c < |ch| && k < g.spc && ch[c] >= 2
    ensures SectorOf(g, ch, Upto(g, c) + k) == ClusterToSector(g, ch[c]) + k
  {
    hide ClusterToSector;
    DivModUnique(Upto(g, c) + k, g.spc, c, k);
  }

  /** One more cluster looked through, up to sector `n` of it. */
  lemma NoHitsOn(g: Geometry, disc: seq<Sector>, ch: seq<nat>, c: nat, n: nat, what: Sought)
    requires c < |ch| && ch[c] >= 2 && n <= g.spc && NoHits(g, disc, ch, Upto(g, c), what)
    requires NoneIn(disc, ClusterToSector(g, ch[c]), n, what)
    ensures NoHits(g, disc, ch, Upto(g, c) + n, what)
  {
    hide ClusterToSector, SectorOf, NoHit, Upto;
    forall q | Upto(g, c) <= q < Upto(g, c) + n ensures NoHit(disc, SectorOf(g, ch, q), what) {
      SectorAt(g, ch, c, q - Upto(g, c));
    }
  }

  /** dir_findinDir on a directory with clusters: the first hit in the whole chain, or none. */
  method FindInDir(fs: FileSystem, first: nat, what: Sought, ghost ch: seq<nat>)
    returns (r: nat, sector: nat, offset: nat, ghost q: nat)
    requires fs.Ok() && fs.part.Slack() >= Buffers(fs.g) && IsChain(fs.g.fatType, fs.Table(), ch) && ch[0] == first
    modifies fs.part.io
    ensures fs.Untouched()
    ensures NoHits(fs.g, fs.part.Disc(), ch, if r == 0 then Sectors(fs.g, ch) else q, what)
    ensures r != 0 ==> q < Sectors(fs.g, ch) && sector == SectorOf(fs.g, ch, q) && FirstHit(fs.part.Disc(), sector, offset, what, r)
  {
    hide Partition.Disc, Partition.Outside, Partition.Slack, FileSystem.Table, Partition.Ready, CacheOk, Fat, Rest, FileSystem.Around;
    hide ClusterToSector, WellFormed, ClusterChain.Tracks, ChainFrom, NoHit, NoneIn, FirstHit, NoHits, Numbered, Upto, Sectors, SectorOf;
    ChainIsData(fs.g, fs.Table(), ch);
    sector, offset, q := 0, 0, 0;
    var cache := new ClusterChain(first);
    cache.Begins(ch);
    var c := 0;
    NoHitsYet(fs.g, fs.part.Disc(), ch, what);
    var e := fs.LogicToDiscCluster(cache, c, ch, 0);
    while e == 0
      invariant fs.Untouched() && cache.Tracks(ch)
      invariant c <= |ch| && e == (if c < |ch| then 0 else -1)
      invariant c < |ch| ==> cache.discCluster == ch[c]
      invariant NoHits(fs.g, fs.part.Disc(), ch, Upto(fs.g, c), what)
      decreases |ch| - c
    {
      var k;
      r, k, offset := FindInCluster(fs, cache.discCluster, what);
      NoHitsOn(fs.g, fs.part.Disc(), ch, c, if r == 0 then fs.g.spc else k, what);
      if r != 0 {
        sector := ClusterToSector(fs.g, cache.discCluster) + k;
        q := Upto(fs.g, c) + k;
        SectorAt(fs.g, ch, c, k);
        OneCluster(fs.g, ch, c);
        return;
      }
      OneCluster(fs.g, ch, c);
      c := c + 1;
      e := fs.LogicToDiscCluster(cache, c, ch, 0);
    }
    AllClusters(fs.g, ch);
    r := 0;
  }

  lemma NoHitsYet(g: Geometry, disc: seq<Sector>, ch: seq<nat>, what: Sought)
    ensures NoHits(g, disc, ch, Upto(g, 0), what)
  {
  }

  // ---- what creating and deleting a file mean for a search ----

  /** The record of a new file is found by its name, also after sizes and clusters have been set; it is a free place only
      if the name says so. */
  lemma CreatedIsFound(s: Sector, i: nat, name: FatName, cluster: nat, size: nat)
    requires i < 16
    ensures var s' := WithSize(Created(s, i, name, cluster), i, size);
            Hit(s', i, Named(name)) && (Hit(s', i, Unused) <==> name[0] == 0 || name[0] == 0xE5)
  {
    var s' := WithSize(Created(s, i, name, cluster), i, size);
    var s0 := Splice(s, 32 * i, DefaultRecord(name));
    assert forall j :: 32 * i <= j < 32 * i + 12 ==> s'[j] == s0[j];
    assert s0[32 * i + 11] == 0;
    assert forall j :: 0 <= j < 11 ==> s0[32 * i + j] == name[j];
  }

  /** The record of a deleted file is a free place, and is not found any more by a name that was its own. */
  lemma RemovedIsFree(s: Sector, i: nat, name: FatName)
    requires Hit(s, i, Named(name))
    ensures var s' := Splice(s, 32 * i, [DELETED]);
            Hit(s', i, Unused) && (Hit(s', i, Named(name)) <==> name[0] == 0xE5)
  {
    var s' := Splice(s, 32 * i, [DELETED]);
    assert s'[32 * i + 11] == s[32 * i + 11];
    assert s'[32 * i..32 * i + 11][0] == DELETED;
    assert s[32 * i..32 * i + 11] == name;
    if name[0] == DELETED {
      assert s[32 * i] == s[32 * i..32 * i + 11][0];
      assert s'[32 * i..32 * i + 11] == name;
    }
  }
}
