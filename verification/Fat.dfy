/** The FAT of a mounted volume: entries, the run-length cursor over cluster chains, allocation and release. */
module Fats {
  import opened Bytes
  import opened Geometries
  import opened FatEntries
  import opened Chains
  import opened IoMan
  import opened Partitions
  import opened Slots
  import opened Scans
  import opened Directories

  /** The cursor over one chain (struct ClusterChain). */
  class ClusterChain {
    var linear: nat           // for how many more clusters the chain is contiguous; eight bits
    var logicCluster: nat
    var discCluster: nat      // 0: position unknown
    var firstCluster: nat
    var lastCluster: nat      // 0: unknown
    var clusterCount: nat     // 0: unknown

    /** The cursor is a correct position in chain `ch`; the empty sequence stands for a file without clusters. */
    ghost predicate Tracks(ch: seq<nat>)
      reads this
    {
      if ch == [] then
        firstCluster == 0 && discCluster == 0 && linear == 0
      else
        && firstCluster == ch[0]
        && (discCluster == 0 ==> linear == 0)
        && (discCluster != 0 ==> Run(ch, logicCluster, discCluster, linear))
        && (lastCluster == 0 || lastCluster == ch[|ch| - 1])
    }

    /** fs_initClusterChain, and what fat.c and ui.c do by hand for a local cursor. */
    constructor (cluster: nat)
      ensures linear == logicCluster == lastCluster == clusterCount == 0
      ensures discCluster == firstCluster == cluster
    {
      firstCluster, discCluster, logicCluster, lastCluster, linear, clusterCount := cluster, cluster, 0, 0, 0, 0;
    }

    /** fs_initClusterChain on an existing cursor. */
    method Init(cluster: nat)
      modifies this
      ensures linear == logicCluster == lastCluster == clusterCount == 0
      ensures discCluster == firstCluster == cluster
    {
      firstCluster, discCluster, logicCluster, lastCluster, linear, clusterCount := cluster, cluster, 0, 0, 0, 0;
    }

    /** A cursor at the start of a chain. */
    lemma Begins(ch: seq<nat>)
      requires firstCluster == discCluster && logicCluster == linear == lastCluster == 0
      requires if ch == [] then firstCluster == 0 else firstCluster == ch[0]
      ensures Tracks(ch)
    {
    }

    /** The cursor fields file_initFile sets; the cluster count is not among them. */
    method Place(cluster: nat)
      modifies this
      ensures linear == logicCluster == lastCluster == 0
      ensures discCluster == firstCluster == cluster && clusterCount == old(clusterCount)
    {
      linear, firstCluster, lastCluster, logicCluster, discCluster := 0, cluster, 0, 0, cluster;
    }

    /** A local cursor that has no position yet. */
    constructor Unplaced(first: nat, ghost ch: seq<nat>)
      requires first == if ch == [] then 0 else ch[0]
      ensures linear == logicCluster == lastCluster == clusterCount == discCluster == 0 && firstCluster == first
      ensures Tracks(ch)
    {
      firstCluster, discCluster, logicCluster, lastCluster, linear, clusterCount := first, 0, 0, 0, 0, 0;
    }

    /** What a known position says. */
    lemma Here(ch: seq<nat>)
      requires Tracks(ch)
      ensures ch != [] ==> firstCluster == ch[0]
      ensures ch == [] ==> firstCluster == discCluster == linear == 0
      ensures ch != [] ==> lastCluster == 0 || lastCluster == ch[|ch| - 1]
      ensures discCluster != 0 ==> logicCluster + linear < |ch| && discCluster == ch[logicCluster]
    {
    }

    /** Back to the start of the chain. */
    method Rewind(ghost ch: seq<nat>)
      requires Tracks(ch)
      modifies this`logicCluster, this`discCluster, this`linear
      ensures Tracks(ch) && logicCluster == linear == 0 && discCluster == firstCluster
    {
      logicCluster := 0;
      discCluster := firstCluster;
      linear := 0;
    }

    /** On to the next cluster of the chain, of which `lin` consecutive clusters have been seen; eight bits are kept. */
    method Step(dc: nat, lin: nat, ghost ch: seq<nat>)
      requires Tracks(ch) && discCluster != 0 && logicCluster + 1 < |ch| && dc == ch[logicCluster + 1] != 0
      requires lin > 0 ==> Run(ch, logicCluster + 1, dc, lin - 1)
      modifies this`logicCluster, this`discCluster, this`linear
      ensures Tracks(ch) && discCluster == dc && logicCluster == old(logicCluster) + 1
      ensures linear == if lin == 0 then 0 else (lin - 1) % 256
    {
      discCluster := dc;
      logicCluster := logicCluster + 1;
      linear := if lin < 1 then 0 else (lin - 1) % 256;
      RunStart(ch, logicCluster);
      if lin > 0 { RunSkip(ch, logicCluster, dc, lin - 1, linear); }
    }

    /** The current cluster is the last one. */
    method Park(ghost ch: seq<nat>)
      requires Tracks(ch) && discCluster != 0 && logicCluster == |ch| - 1
      modifies this`lastCluster
      ensures Tracks(ch) && lastCluster == discCluster
    {
      lastCluster := discCluster;
    }

    /** `n` clusters more, if the count was known. */
    method Recount(n: nat, ghost ch: seq<nat>)
      requires Tracks(ch)
      modifies this`clusterCount
      ensures Tracks(ch) && clusterCount == Recounted(old(clusterCount), n)
    {
      if clusterCount != 0 {
        clusterCount := (clusterCount + n) % UINT32;
      }
    }

    /** Logical position 0, the run length being one for the start of the chain. */
    method ToFirst(ghost ch: seq<nat>)
      requires ch == [] ==> firstCluster == 0 && linear == 0
      requires ch != [] ==> firstCluster == ch[0] && Run(ch, 0, ch[0], linear)
                            && (lastCluster == 0 || lastCluster == ch[|ch| - 1])
      requires ch != [] ==> ch[0] != 0
      modifies this`logicCluster, this`discCluster
      ensures Tracks(ch)
    {
      logicCluster := 0;
      discCluster := firstCluster;
    }

    /** The chain has grown behind the cursor. */
    method Extended(ghost ch: seq<nat>, ghost xs: seq<nat>, tail: nat)
      requires ch != [] && Tracks(ch) && tail == Tail(ch[|ch| - 1], xs)
      modifies this`lastCluster
      ensures Tracks(ch + xs) && lastCluster == tail
    {
      lastCluster := tail;
    }

    /** `k` clusters along the contiguous run. */
    method Along(k: nat, ghost ch: seq<nat>)
      requires Tracks(ch) && discCluster != 0 && k <= linear
      modifies this`logicCluster, this`discCluster, this`linear
      ensures Tracks(ch) && discCluster == old(discCluster) + k
      ensures logicCluster == old(logicCluster) + k < |ch| && linear == old(linear) - k
      ensures discCluster == ch[logicCluster]
    {
      RunSkip(ch, logicCluster, discCluster, linear, k);
      linear := linear - k;
      logicCluster := logicCluster + k;
      discCluster := discCluster + k;
    }
  }

  function Recounted(count: nat, n: nat): nat {
    if count == 0 then 0 else (count + n) % UINT32
  }

  /** How many clusters from `c` on follow each other on the disc and in their chain, as far as the entries in FAT sector
      `sect` tell. */
  ghost function RunLength(g: Geometry, fat: seq<nat>, sect: nat, c: nat): nat
    decreases |fat| - c
  {
    if c < |fat| && SectorAddress(g, c) == sect then 1 + if fat[c] == c + 1 then RunLength(g, fat, sect, c + 1) else 0 else 0
  }

  /** The sectors in front of and behind the first FAT. */
  ghost function Rest(g: Geometry, disc: seq<Sector>): (seq<Sector>, seq<Sector>)
    requires g.reserved + g.fatSectors <= |disc|
  {
    (disc[..g.reserved], disc[g.reserved + g.fatSectors..])
  }

  /** No cluster number of a volume is an end-of-chain value. */
  lemma FewClusters(g: Geometry, count: nat)
    requires WellFormed(g, count)
    ensures g.dcc + 2 < EocMin(g.fatType)
  {
    hide DataBase, FatCovers;
  }

  class FileSystem {
    const part: Partition
    const g: Geometry
    var freeClusterCount: nat

    constructor (part: Partition, g: Geometry)
      ensures this.part == part && this.g == g
    {
      this.part, this.g, freeClusterCount := part, g, 0;
    }

    ghost predicate Ok()
      reads part.io
    {
      part.Ready() && WellFormed(g, part.count)
    }

    /** The entries of the first FAT. */
    ghost function Table(): (f: seq<nat>)
      requires Ok()
      reads part.io
      ensures Numbered(g.fatType, f) && |f| == g.dcc + 2
    {
      FewClusters(g, part.count);
      Fat(g, part.Disc())
    }

    /** Everything but the first FAT: the other sectors of the partition and of the device, and the buffers held. */
    ghost function Around(): ((seq<Sector>, seq<Sector>), (seq<Sector>, seq<Sector>), seq<Hold>)
      requires Ok()
      reads part.io
    {
      (Rest(g, part.Disc()), part.Outside(), part.io.held)
    }

    /** What an operation that only reads leaves behind: the same sectors and the same buffers held. */
    twostate predicate Untouched()
      reads part.io
    {
      && old(Ok()) && Ok()
      && part.Disc() == old(part.Disc()) && Around() == old(Around())
      && Table() == old(Table())
      && part.Slack() == old(part.Slack())
    }

    /** What an operation on FAT entries leaves behind: everything around the first FAT is the same. */
    twostate predicate FatTouched()
      reads part.io
    {
      && old(Ok()) && Ok()
      && Around() == old(Around())
      && part.Slack() == old(part.Slack())
    }

    /** What the volume's premises give the entry functions. */
    lemma Facts()
      requires Ok()
      ensures HasFat(g, part.Disc()) && FatCovers(g) && 0 < g.reserved
      ensures g.reserved + g.fatSectors <= part.count
    {
      hide CacheOk;
    }

    /** fat_getNextClusterAddressWBuf: the entry of `c`, its sector being in the buffer obtained last. */
    method GetNextClusterAddressWBuf(c: nat, bp: nat) returns (v: nat)
      requires Ok() && c < g.dcc + 2 && part.Top(bp, SectorAddress(g, c), false) && (Straddles(g.fatType, c) ==> part.Slack() >= 1)
      modifies part.io
      ensures Untouched() && v == Table()[c]
    {
      hide CacheOk, Fat, Partition.Disc, Partition.Outside, Partition.Slack, WellFormed;
      Facts();
      ReadEntry(g, part.Disc(), c);
      var buf := part.Load(bp, SectorAddress(g, c));
      var offset := EntryOffset(g.fatType, c);
      match g.fatType
      case FAT12 =>
        var hb: int := buf[offset];
        var lb: int;
        if offset == 511 {
          var bp2 := part.GetSect(SectorAddress(g, c) + 1, IOM_MODE_READONLY);
          var buf2 := part.Load(bp2, SectorAddress(g, c) + 1);
          lb := buf2[0];
          part.RelSect(bp2);
        } else {
          lb := buf[offset + 1];
        }
        if c % 2 == 0 {
          v := lb % 16 * 256 + hb;
        } else {
          v := lb * 16 + hb / 16;
        }
      case FAT16 =>
        v := GetB16(buf, offset);
      case FAT32 =>
        v := GetB32(buf, offset);
    }

    /** fat_getNextClusterAddress */
    method GetNextClusterAddress(c: nat) returns (v: nat)
      requires Ok() && c < g.dcc + 2 && part.Slack() >= 1
      modifies part.io
      ensures Untouched() && v == Table()[c]
    {
      hide CacheOk, Fat, Partition.Disc, Partition.Outside, Partition.Slack, WellFormed;
      Facts();
      ReadEntry(g, part.Disc(), c);
      EntryLocated(g, c);
      var sector := SectorAddress(g, c);
      var offset := EntryOffset(g.fatType, c);
      var bp := part.GetSect(sector, IOM_MODE_READONLY);
      var buf := part.Load(bp, sector);
      match g.fatType {
        case FAT12 =>
          var hb: int := buf[offset];
          var lb: int;
          if offset == 511 {
            part.RelSect(bp);
            bp := part.GetSect(sector + 1, IOM_MODE_READONLY);
            buf := part.Load(bp, sector + 1);
            lb := buf[0];
          } else {
            lb := buf[offset + 1];
          }
          if c % 2 == 0 {
            v := lb % 16 * 256 + hb;
          } else {
            v := lb * 16 + hb / 16;
          }
        case FAT16 =>
          v := GetB16(buf, offset);
        case FAT32 =>
          v := GetB32(buf, offset);
      }
      part.RelSect(bp);
    }

    /** fat_setNextClusterAddressWBuf: the entry of `c` becomes `v` (cut to the entry's width), its sector being in the
        read-write buffer obtained last; no other entry and no other sector changes. */
    method SetNextClusterAddressWBuf(c: nat, v: nat, bp: nat)
      requires Ok() && c < g.dcc + 2 && part.Top(bp, SectorAddress(g, c), true) && (Straddles(g.fatType, c) ==> part.Slack() >= 1)
      modifies part.io
      ensures FatTouched() && Table() == old(Table())[c := v % Width(g.fatType)]
    {
      hide CacheOk, Fat, Partition.Disc, Partition.Outside, Partition.Slack, WellFormed;
      Facts();
      match g.fatType
      case FAT12 => Set12(c, v, bp);
      case FAT16 => SetWide(c, v, bp, Le16(v));
      case FAT32 => SetWide(c, v, bp, Le32(v));
    }

    /** The 16- and 32-bit cases of the setters: one store. */
    method SetWide(c: nat, v: nat, bp: nat, bytes: seq<Byte>)
      requires Ok() && c < g.dcc + 2 && part.Top(bp, SectorAddress(g, c), true)
      requires g.fatType != FAT12 && bytes == if g.fatType == FAT16 then Le16(v) else Le32(v)
      modifies part.io
      ensures FatTouched() && Table() == old(Table())[c := v % Width(g.fatType)]
    {
      hide CacheOk, Fat, Partition.Disc, Partition.Outside, Partition.Slack, WellFormed;
      Facts();
      StoreWide(g, part.Disc(), c, v);
      part.Store(bp, SectorAddress(g, c), EntryOffset(g.fatType, c), bytes);
    }

    /** The 12-bit case of the setters. */
    method Set12(c: nat, v: nat, bp: nat)
      requires Ok() && c < g.dcc + 2 && g.fatType == FAT12 && part.Top(bp, SectorAddress(g, c), true) && (Straddles(g.fatType, c) ==> part.Slack() >= 1)
      modifies part.io
      ensures FatTouched() && Table() == old(Table())[c := v % Width(g.fatType)]
    {
      hide CacheOk, Fat, Partition.Disc, Partition.Outside, Partition.Slack, WellFormed;
      Facts();
      StoreNarrow(g, part.Disc(), c, v);
      Store12(c, v, bp);
    }

    /** The stores of the 12-bit case: two bytes, the second possibly in the next sector. */
    method Store12(c: nat, v: nat, bp: nat)
      requires Ok() && c < g.dcc + 2 && g.fatType == FAT12 && part.Top(bp, SectorAddress(g, c), true) && (Straddles(g.fatType, c) ==> part.Slack() >= 1)
      modifies part.io
      ensures Ok() && part.Outside() == old(part.Outside())
      ensures part.io.held == old(part.io.held) && part.Slack() == old(part.Slack())
      ensures var s, off := SectorAddress(g, c), EntryOffset(FAT12, c);
              var (s2, off2) := Second(s, off);
              var disc := old(part.Disc());
              && s <= s2 < part.count && off < 512 && off2 < 512
              && var d1 := disc[s := Splice(disc[s], off, [First12(c, disc[s][off], v)])];
              && part.Disc() == d1[s2 := Splice(d1[s2], off2, [Second12(c, d1[s2][off2], v)])]
    {
      hide CacheOk, Fat, Partition.Disc, Partition.Outside, Partition.Slack, WellFormed;
      Facts();
      EntryLocated(g, c);
      var sector := SectorAddress(g, c);
      var offset := EntryOffset(FAT12, c);
      var buf := part.Load(bp, sector);
      part.Store(bp, sector, offset, [First12(c, buf[offset], v)]);
      if offset == 511 {
        var bp2 := part.GetSect(sector + 1, IOM_MODE_READWRITE);
        var buf2 := part.Load(bp2, sector + 1);
        part.Store(bp2, sector + 1, 0, [Second12(c, buf2[0], v)]);
        part.RelSect(bp2);
      } else {
        buf := part.Load(bp, sector);
        part.Store(bp, sector, offset + 1, [Second12(c, buf[offset + 1], v)]);
      }
    }

    /** fat_setNextClusterAddress */
    method SetNextClusterAddress(c: nat, v: nat)
      requires Ok() && c < g.dcc + 2 && part.Slack() >= Buffers(g)
      modifies part.io
      ensures FatTouched() && Table() == old(Table())[c := v % Width(g.fatType)]
    {
      hide CacheOk, Fat, Partition.Disc, Partition.Outside, Partition.Slack, WellFormed;
      Facts();
      EntryLocated(g, c);
      var bp := part.GetSect(SectorAddress(g, c), IOM_MODE_READWRITE);
      SetNextClusterAddressWBuf(c, v, bp);
      part.RelSect(bp);
    }

    // ---- the cursor ----

    /** fat_getNextClusterChain: one step along the chain, then a look at how many of the following clusters are
        consecutive according to the same FAT sector; the count is cut to eight bits. At the end of the chain nothing
        moves and the last cluster is remembered. */
    method GetNextClusterChain(cache: ClusterChain, ghost ch: seq<nat>, ghost p: nat) returns (r: int)
      requires Ok() && part.Slack() >= Buffers(g)
      requires cache.Tracks(ch)
      requires cache.discCluster != 0 ==> ChainFrom(g.fatType, Table(), ch, p) && p <= cache.logicCluster
      modifies part.io, cache
      ensures Untouched() && cache.Tracks(ch)
      ensures cache.firstCluster == old(cache.firstCluster) && cache.clusterCount == old(cache.clusterCount)
      ensures r == if old(cache.discCluster) == 0 || old(cache.logicCluster) == |ch| - 1 then -1 else 0
      ensures r == -1 ==> cache.discCluster == old(cache.discCluster) && cache.logicCluster == old(cache.logicCluster)
                          && cache.linear == old(cache.linear)
      ensures r == -1 && cache.discCluster != 0 ==> cache.lastCluster == ch[|ch| - 1]
      ensures r == -1 && cache.discCluster != 0 ==> cache.logicCluster == |ch| - 1 && cache.discCluster == ch[|ch| - 1]
      ensures r == 0 ==> cache.logicCluster == old(cache.logicCluster) + 1 && cache.lastCluster == old(cache.lastCluster)
                         && cache.logicCluster < |ch| && cache.discCluster == ch[cache.logicCluster] != 0
      ensures r == 0 ==> var n := RunLength(g, Table(), SectorAddress(g, old(cache.discCluster)), cache.discCluster);
                         cache.linear == if n == 0 then 0 else (n - 1) % 256
    {
      hide CacheOk, Fat, Partition.Disc, Partition.Outside, Partition.Slack, WellFormed, SectorAddress, RunLength;
      hide ChainFrom, IsEoc, Numbered, Run, ClusterChain.Tracks;
      Facts();
      cache.Here(ch);
      if cache.discCluster == 0 {
        return -1;
      }
      NextInChain(g.fatType, Table(), ch, p, cache.logicCluster);
      EntryLocated(g, cache.discCluster);
      var sect := SectorAddress(g, cache.discCluster);
      var bp := part.GetSect(sect, IOM_MODE_READONLY);
      var dc := GetNextClusterAddressWBuf(cache.discCluster, bp);
      if IsEoc(g.fatType, dc) {
        cache.Park(ch);
        part.RelSect(bp);
        return -1;
      }
      var lin := CountRun(dc, sect, bp, ch, p, cache.logicCluster + 1);
      cache.Step(dc, lin, ch);
      part.RelSect(bp);
      return 0;
    }

    /** The look-ahead loop: how many clusters from `disc` on are consecutive, as far as FAT sector `sect` tells. */
    method CountRun(disc: nat, sect: nat, bp: nat, ghost ch: seq<nat>, ghost p: nat, ghost logic: nat) returns (lin: nat)
      requires Ok() && part.Slack() >= Buffers(g) - 1 && part.Top(bp, sect, false)
      requires ChainFrom(g.fatType, Table(), ch, p) && p <= logic < |ch| && disc == ch[logic]
      modifies part.io
      ensures Untouched()
      ensures lin > 0 ==> Run(ch, logic, disc, lin - 1)
      ensures lin == RunLength(g, Table(), sect, disc)
    {
      hide CacheOk, Fat, Partition.Disc, Partition.Outside, Partition.Slack, WellFormed, SectorAddress;
      Facts();
      lin := 0;
      var lr: int, nlr: int := disc - 1, disc;
      ghost var table := Table();
      while nlr - 1 == lr && SectorAddress(g, nlr) == sect
        invariant Untouched()
        invariant nlr >= 0
        invariant RunLength(g, table, sect, disc) == lin + if nlr - 1 == lr then RunLength(g, table, sect, nlr) else 0
        invariant lin == 0 ==> lr == disc - 1 && nlr == disc
        invariant lin > 0 ==> lr == disc + lin - 1 && lr < |table| && logic + lin - 1 < |ch| && nlr == table[lr]
        invariant lin > 0 ==> Run(ch, logic, disc, lin - 1)
        decreases |table| - lr
      {
        if lin > 0 {
          NextInChain(g.fatType, table, ch, p, logic + lin - 1);
          assert ch[logic + lin - 1] == lr;
          assert nlr == ch[logic + lin];
        }
        lr := nlr;
        nlr := GetNextClusterAddressWBuf(lr, bp);
        lin := lin + 1;
      }
    }

    /** fat_LogicToDiscCluster: moves the cursor to logical cluster `l` if the chain has it, otherwise parks it on the
        last cluster. A walk that does not go back needs the chain only from the cursor on. A file without clusters has a logical cluster 0 that is disc cluster 0. */
    method LogicToDiscCluster(cache: ClusterChain, l: nat, ghost ch: seq<nat>, ghost p: nat) returns (r: int)
      requires Ok() && part.Slack() >= Buffers(g)
      requires cache.Tracks(ch) && (ch != [] ==> ChainFrom(g.fatType, Table(), ch, p))
      requires p == 0 || (cache.discCluster != 0 && p <= cache.logicCluster <= l)
      modifies part.io, cache
      ensures Untouched() && cache.Tracks(ch)
      ensures cache.firstCluster == old(cache.firstCluster) && cache.clusterCount == old(cache.clusterCount)
      ensures r == if l < |Visited(ch)| then 0 else -1
      ensures cache.logicCluster == if l < |Visited(ch)| then l else |Visited(ch)| - 1
      ensures cache.discCluster == Visited(ch)[cache.logicCluster]
    {
      hide Partition.Disc, Partition.Slack, FileSystem.Around, FileSystem.Ok, FileSystem.Table, ChainFrom, ClusterChain.Tracks, Numbered;
      if ch != [] { FirstInRange(g.fatType, Table(), ch, p); }
      cache.Here(ch);
      if l < cache.logicCluster || cache.discCluster == 0 {
        cache.Rewind(ch);
      }
      if cache.logicCluster == l {
        return 0;
      }
      while cache.logicCluster != l
        invariant Untouched() && cache.Tracks(ch)
        invariant cache.firstCluster == old(cache.firstCluster) && cache.clusterCount == old(cache.clusterCount)
        invariant ch != [] ==> cache.discCluster != 0
        invariant ch == [] ==> cache.discCluster == cache.linear == cache.logicCluster == 0
        invariant cache.discCluster != 0 ==> cache.logicCluster < |ch| && cache.discCluster == ch[cache.logicCluster]
        invariant p <= cache.logicCluster <= l
        decreases |ch| - cache.logicCluster
      {
        if cache.linear != 0 {
          cache.Along(1, ch);
        } else {
          var e := GetNextClusterChain(cache, ch, p);
          if e != 0 {
            return -1;
          }
        }
      }
      return 0;
    }

    /** fs_getLastCluster */
    method GetLastCluster(cache: ClusterChain, ghost ch: seq<nat>) returns (last: nat)
      requires Ok() && part.Slack() >= Buffers(g)
      requires ch != [] && cache.Tracks(ch) && IsChain(g.fatType, Table(), ch)
      modifies part.io, cache
      ensures Untouched() && cache.Tracks(ch) && cache.discCluster != 0
      ensures cache.firstCluster == old(cache.firstCluster) && cache.clusterCount == old(cache.clusterCount)
      ensures last == cache.lastCluster == ch[|ch| - 1]
    {
      hide Partition.Disc, Partition.Slack, FileSystem.Around, FileSystem.Ok, FileSystem.Table, ChainFrom, ClusterChain.Tracks;
      FirstInRange(g.fatType, Table(), ch, 0);
      cache.Here(ch);
      if cache.discCluster == 0 {
        cache.Rewind(ch);
      }
      if cache.lastCluster == 0 {
        var e := GetNextClusterChain(cache, ch, 0);
        while e == 0
          invariant Untouched() && cache.Tracks(ch) && cache.discCluster != 0
          invariant cache.firstCluster == old(cache.firstCluster) && cache.clusterCount == old(cache.clusterCount)
          invariant cache.logicCluster < |ch|
          invariant e == 0 || cache.lastCluster == ch[|ch| - 1]
          decreases |ch| - cache.logicCluster, e + 1
        {
          cache.Along(cache.linear, ch);
          e := GetNextClusterChain(cache, ch, 0);
        }
      }
      return cache.lastCluster;
    }

    // ---- allocation ----

    /** One look of the allocation sweep: if cluster `cc` is free, link `lc` to it. */
    method Take(lc: nat, cc: nat) returns (taken: bool)
      requires Ok() && part.Slack() >= Buffers(g) + 1 && lc < g.dcc + 2 && cc < g.dcc + 2
      modifies part.io
      ensures FatTouched()
      ensures taken <==> old(Table())[cc] == 0
      ensures Table() == if taken then old(Table())[lc := cc] else old(Table())
    {
      hide CacheOk, Fat, Partition.Disc, Partition.Outside, Partition.Slack, WellFormed, SectorAddress;
      Facts();
      EntryLocated(g, cc);
      FitsEntry(g.fatType, Table(), cc);
      var bufa := part.GetSect(SectorAddress(g, cc), IOM_MODE_READONLY);
      var v := GetNextClusterAddressWBuf(cc, bufa);
      taken := v == 0;
      if taken {
        SetNextClusterAddress(lc, cc);
      }
      part.RelSect(bufa);
    }

    /** fat_allocClusterChain. The chain is extended by the first `n` free clusters in the order of the sweep, or by all
        of them if there are fewer, and closed; nothing else in the FAT changes. The result is 0 if `n` links were made
        and otherwise the number of links made. */
    method AllocClusterChain(cache: ClusterChain, n: nat, ghost ch: seq<nat>) returns (r: int)
      requires Ok() && part.Slack() >= Buffers(g) + 1
      requires cache.firstCluster > 1 ==> ch != [] && cache.Tracks(ch) && IsChain(g.fatType, Table(), ch)
      modifies part.io, cache, this`freeClusterCount
      ensures FatTouched() && cache.firstCluster == old(cache.firstCluster)
      ensures cache.firstCluster <= 1 ==> Untouched() && unchanged(cache) && unchanged(this) && r == Int16(n)
      ensures cache.firstCluster > 1 ==>
                var fat, last := old(Table()), ch[|ch| - 1];
                && Allocated(g.fatType, fat, ch, n, Table())
                && cache.Tracks(ch + Chosen(fat, last, g.dcc, n))
                && r == Int16(Shortfall(fat, last, g.dcc, n))
                && cache.clusterCount == (if n <= Links(fat, last, g.dcc) then Recounted(old(cache.clusterCount), n)
                                          else old(cache.clusterCount))
                && freeClusterCount == (if n <= Links(fat, last, g.dcc) then old(freeClusterCount)
                                        else (old(freeClusterCount) - Links(fat, last, g.dcc)) % UINT32)
    {
      hide Partition.Disc, Partition.Slack, FileSystem.Table, FileSystem.Ok, FileSystem.Around, ChainFrom;
      hide ClusterChain.Tracks, Allocated, Chosen, Links;
      if cache.firstCluster <= 1 {
        return Int16(n);
      }
      var links := Grow(cache, n, ch);
      if links < n {
        freeClusterCount := (freeClusterCount - links) % UINT32;
        return Int16(links);
      }
      cache.Recount(n, ch + Chosen(old(Table()), ch[|ch| - 1], g.dcc, n));
      return 0;
    }

    /** The body of the allocation: find the end of the chain, sweep, remember the new end. */
    method Grow(cache: ClusterChain, n: nat, ghost ch: seq<nat>) returns (links: nat)
      requires Ok() && part.Slack() >= Buffers(g) + 1
      requires ch != [] && cache.Tracks(ch) && IsChain(g.fatType, Table(), ch)
      modifies part.io, cache
      ensures FatTouched()
      ensures cache.firstCluster == old(cache.firstCluster) && cache.clusterCount == old(cache.clusterCount)
      ensures Allocated(g.fatType, old(Table()), ch, n, Table())
      ensures cache.Tracks(ch + Chosen(old(Table()), ch[|ch| - 1], g.dcc, n))
      ensures links == if n <= Links(old(Table()), ch[|ch| - 1], g.dcc) then n else Links(old(Table()), ch[|ch| - 1], g.dcc)
    {
      hide Partition.Disc, Partition.Slack, FileSystem.Table, FileSystem.Ok, FileSystem.Around, ChainFrom;
      hide ClusterChain.Tracks, Allocated, Chosen, Links, ChainFrom, Extend, Tail, Numbered;
      AllocatesNothing(g.fatType, Table(), ch);
      var lc := GetLastCluster(cache, ch);
      links := 0;
      if n > 0 {
        var tail;
        links, tail := Sweep(lc, n, ch);
        cache.Extended(ch, Chosen(old(Table()), lc, g.dcc, n), tail);
      }
    }

    /** The allocation loop: sweep, link and close. `links` counts the links made. */
    method Sweep(last: nat, n: nat, ghost ch: seq<nat>) returns (links: nat, lc: nat)
      requires Ok() && part.Slack() >= Buffers(g) + 1 && n > 0
      requires IsChain(g.fatType, Table(), ch) && last == ch[|ch| - 1]
      modifies part.io
      ensures FatTouched()
      ensures Allocated(g.fatType, old(Table()), ch, n, Table())
      ensures lc == Tail(last, Chosen(old(Table()), last, g.dcc, n))
      ensures links == if n <= Links(old(Table()), last, g.dcc) then n else Links(old(Table()), last, g.dcc)
    {
      hide Partition.Disc, Partition.Slack, FileSystem.Table, FileSystem.Ok, FileSystem.Around, ChainFrom;
      hide Swept, Taken, Links, Chosen, Extend, Numbered;
      ghost var fat := Table();
      LastInRange(g.fatType, fat, ch);
      var cc, overflow, ncl;
      ghost var looped;
      cc, overflow, ncl, lc, looped := LookAround(last, n, fat);
      links := n - ncl;
      Close(fat, last, cc, overflow, looped, lc, n, ncl);
    }

    method LookAround(last: nat, n: nat, ghost fat: seq<nat>)
      returns (cc: nat, overflow: bool, ncl: nat, lc: nat, ghost looped: bool)
      requires Ok() && part.Slack() >= Buffers(g) + 1 && n > 0 && fat == Table()
      requires 2 <= last < |fat| && fat[last] != 0
      modifies part.io
      ensures FatTouched() && cc <= g.dcc + 1 && ncl <= n
      ensures Swept(fat, last, g.dcc, cc, overflow, looped, Table())
      ensures lc == Tail(last, Taken(fat, last, g.dcc, cc, overflow)) < |fat|
      ensures n - ncl == |Taken(fat, last, g.dcc, cc, overflow)| + (if looped then 1 else 0)
      ensures ncl > 0 ==> overflow && g.dcc <= cc
    {
      SweepStart(fat, last, g.dcc);
      hide Partition.Disc, Partition.Slack, FileSystem.Table, FileSystem.Ok, FileSystem.Around;
      hide Swept, Taken;
      cc, ncl, overflow, lc, looped := last, n, false, last, false;
      while ncl > 0
        invariant FatTouched()
        invariant cc <= g.dcc + 1 && ncl <= n
        invariant Swept(fat, last, g.dcc, cc, overflow, looped, Table())
        invariant lc == Tail(last, Taken(fat, last, g.dcc, cc, overflow)) < |fat|
        invariant n - ncl == |Taken(fat, last, g.dcc, cc, overflow)| + (if looped then 1 else 0)
        decreases !overflow, g.dcc + 1 - cc
      {
        ghost var cc0, wrapped0 := cc, overflow;
        cc := cc + 1;
        if cc >= g.dcc + 1 {
          if overflow {
            cc := cc - 1;
            break;
          }
          cc := 2;
          overflow := true;
        }
        var taken;
        taken, looped := Look(fat, last, cc0, wrapped0, looped, lc, cc, overflow);
        if taken {
          ncl := ncl - 1;
          lc := cc;
        }
      }
    }

    /** One look of the sweep in terms of its state. */
    method Look(ghost fat: seq<nat>, ghost last: nat, ghost cc: nat, ghost wrapped: bool, ghost looped: bool,
                lc: nat, next: nat, ghost wrapped': bool) returns (taken: bool, ghost looped': bool)
      requires Ok() && part.Slack() >= Buffers(g) + 1 && |fat| == g.dcc + 2 && cc <= g.dcc + 1
      requires Swept(fat, last, g.dcc, cc, wrapped, looped, Table())
      requires lc == Tail(last, Taken(fat, last, g.dcc, cc, wrapped)) && Moves(g.dcc, cc, wrapped, next, wrapped')
      modifies part.io
      ensures FatTouched() && next <= g.dcc + 1
      ensures Swept(fat, last, g.dcc, next, wrapped', looped', Table())
      ensures var n, n' := |Taken(fat, last, g.dcc, cc, wrapped)|, |Taken(fat, last, g.dcc, next, wrapped')|;
              n' + (if looped' then 1 else 0) == n + (if looped then 1 else 0) + (if taken then 1 else 0)
      ensures Tail(last, Taken(fat, last, g.dcc, next, wrapped')) == (if taken then next else lc) < |fat|
    {
      SweepStep(fat, last, g.dcc, cc, wrapped, looped, Table(), next, wrapped');
      hide Partition.Disc, Partition.Slack, FileSystem.Table, FileSystem.Ok, FileSystem.Around;
      hide Swept, Taken, Moves;
      taken := Take(lc, next);
      looped' := if taken then Taken(fat, last, g.dcc, next, wrapped') == Taken(fat, last, g.dcc, cc, wrapped) else looped;
    }

    /** The end of the sweep: the newest cluster gets the end-of-chain mark. */
    method Close(ghost fat: seq<nat>, ghost last: nat, ghost cc: nat, ghost wrapped: bool, ghost looped: bool,
                 lc: nat, ghost n: nat, ghost left: nat)
      requires Ok() && part.Slack() >= Buffers(g) && |fat| == g.dcc + 2 && cc <= g.dcc + 1 && left <= n
      requires Swept(fat, last, g.dcc, cc, wrapped, looped, Table())
      requires lc == Tail(last, Taken(fat, last, g.dcc, cc, wrapped))
      requires n - left == |Taken(fat, last, g.dcc, cc, wrapped)| + (if looped then 1 else 0)
      requires left > 0 ==> wrapped && g.dcc <= cc
      modifies part.io
      ensures FatTouched()
      ensures var xs := Chosen(fat, last, g.dcc, n);
              && last < |fat| && (forall i :: 0 <= i < |xs| ==> xs[i] < |fat|)
              && Table() == Extend(g.fatType, fat, last, xs)
              && lc == Tail(last, xs)
      ensures n - left == if n <= Links(fat, last, g.dcc) then n else Links(fat, last, g.dcc)
    {
      if left > 0 {
        SweepExhausted(fat, last, g.dcc, cc, looped, Table(), n);
      } else {
        SweepDone(fat, last, g.dcc, cc, wrapped, looped, Table(), n);
      }
      SweepCloses(g.fatType, fat, last, g.dcc, cc, wrapped, looped, Table());
      FitsEntry(g.fatType, Table(), lc);
      hide Partition.Disc, Partition.Slack, FileSystem.Table, FileSystem.Ok, FileSystem.Around;
      hide Swept, Taken, Chosen, Links, Extend;
      SetNextClusterAddress(lc, GiveEoc(g.fatType));
    }

    // ---- release and the walks over whole chains ----

    /** fat_unlinkClusterChain: every cluster of the chain is freed and nothing else, each one while the walk is already
        past it. For a file without clusters it is the reserved entry 0 that is cleared. */
    method UnlinkClusterChain(cache: ClusterChain, ghost ch: seq<nat>)
      requires Ok() && part.Slack() >= Buffers(g)
      requires ch == [] ==> cache.firstCluster == 0 && cache.linear == 0
      requires ch != [] ==> IsChain(g.fatType, Table(), ch) && cache.firstCluster == ch[0] != 0
                            && Run(ch, 0, ch[0], cache.linear) && (cache.lastCluster == 0 || cache.lastCluster == ch[|ch| - 1])
      modifies part.io, cache, this`freeClusterCount
      ensures FatTouched()
      ensures Table() == Cleared(old(Table()), Visited(ch))
      ensures freeClusterCount == (old(freeClusterCount) + |Visited(ch)| + 1) % UINT32
    {
      hide Partition.Disc, Partition.Slack, FileSystem.Table, FileSystem.Ok, FileSystem.Around, Cleared, Visited, ChainFrom, Run;
      cache.ToFirst(ch);
      var c := FreeVisited(cache, ch);
      freeClusterCount := (freeClusterCount + c) % UINT32;
    }

    /** The loop of unlinkClusterChain; `c` is one more than the number of clusters visited. */
    method FreeVisited(cache: ClusterChain, ghost ch: seq<nat>) returns (c: nat)
      requires Ok() && part.Slack() >= Buffers(g) && cache.Tracks(ch) && (ch != [] ==> IsChain(g.fatType, Table(), ch))
      modifies part.io, cache
      ensures FatTouched()
      ensures Table() == Cleared(old(Table()), Visited(ch)) && c == |Visited(ch)| + 1
    {
      hide Partition.Disc, Partition.Slack, FileSystem.Table, FileSystem.Ok, FileSystem.Around;
      hide ChainFrom, ClusterChain.Tracks, Cleared, Visited, Numbered;
      ghost var fat, vs := Table(), Visited(ch);
      VisitedInRange(g.fatType, fat, ch);
      c := 0;
      var tbd := 0;
      var r := LogicToDiscCluster(cache, c, ch, 0);
      c := c + 1;
      while r == 0
        invariant FatTouched() && cache.Tracks(ch)
        invariant 0 < c <= |vs| + 1
        invariant r == if c <= |vs| then 0 else -1
        invariant cache.logicCluster == (if r == 0 then c else c - 1) - 1 && cache.discCluster == vs[cache.logicCluster]
        invariant tbd == if c == 1 then 0 else vs[c - 2]
        invariant Table() == Cleared(fat, vs[..if c == 1 then 0 else c - 2])
        decreases |vs| + 1 - c
      {
        if tbd != 0 {
          SetNextClusterAddress(tbd, 0);
          ClearMore(fat, vs, c - 2);
        }
        assert Table() == Cleared(fat, vs[..c - 1]);
        tbd := cache.discCluster;
        if ch != [] { ClearedPrefix(g.fatType, fat, ch, c - 1); }
        r := LogicToDiscCluster(cache, c, ch, if ch == [] then 0 else c - 1);
        c := c + 1;
      }
      SetNextClusterAddress(cache.discCluster, 0);
      ClearMore(fat, vs, |vs| - 1);
      assert vs[..|vs|] == vs;
    }

    /** fat_countClustersInChain */
    method CountClustersInChain(first: nat, ghost ch: seq<nat>) returns (n: nat)
      requires Ok() && part.Slack() >= Buffers(g)
      requires first > 1 ==> IsChain(g.fatType, Table(), ch) && ch[0] == first
      modifies part.io
      ensures Untouched()
      ensures n == if first <= 1 then 0 else |ch|
    {
      if first <= 1 {
        return 0;
      }
      hide Partition.Disc, Partition.Slack, FileSystem.Table, FileSystem.Ok, FileSystem.Around, ChainFrom, ClusterChain.Tracks;
      FirstInRange(g.fatType, Table(), ch, 0);
      var cache := new ClusterChain.Unplaced(first, ch);
      var c := 0;
      var r := LogicToDiscCluster(cache, c, ch, 0);
      c := c + 1;
      while r == 0
        invariant Untouched() && cache.Tracks(ch)
        invariant 0 < c <= |ch| + 1 && r == if c <= |ch| then 0 else -1
        decreases |ch| + 1 - c
      {
        r := LogicToDiscCluster(cache, c, ch, 0);
        c := c + 1;
      }
      return c - 1;
    }

    /** fat_DiscToLogicCluster: the position of a member of the chain, 0 for everything else. */
    method DiscToLogicCluster(first: nat, disc: nat, ghost ch: seq<nat>) returns (l: nat)
      requires Ok() && part.Slack() >= Buffers(g)
      requires IsChain(g.fatType, Table(), ch) && ch[0] == first
      modifies part.io
      ensures Untouched()
      ensures forall i :: 0 <= i < |ch| && ch[i] == disc ==> l == i
      ensures disc !in ch ==> l == 0
    {
      hide Partition.Disc, Partition.Slack, FileSystem.Table, FileSystem.Ok, FileSystem.Around, ChainFrom, ClusterChain.Tracks;
      FirstInRange(g.fatType, Table(), ch, 0);
      var cache := new ClusterChain.Unplaced(first, ch);
      ChainDistinct(g.fatType, Table(), ch);
      var c := 0;
      l := 0;
      var r := LogicToDiscCluster(cache, c, ch, 0);
      c := c + 1;
      while r == 0 && l == 0
        invariant Untouched() && cache.Tracks(ch)
        invariant 0 < c <= |ch| + 1 && r == if c <= |ch| then 0 else -1
        invariant r == 0 ==> cache.logicCluster == c - 1 && cache.discCluster == ch[c - 1]
        invariant l == 0 ==> forall i :: 0 < i < c - 1 && i < |ch| ==> ch[i] != disc
        invariant l != 0 ==> l < |ch| && ch[l] == disc
        decreases |ch| + 1 - c
      {
        if cache.discCluster == disc {
          l := cache.logicCluster;
        }
        r := LogicToDiscCluster(cache, c, ch, 0);
        c := c + 1;
      }
    }

    /** fs_getNextFreeCluster: the first free cluster in [start, dcc), 0 if there is none. */
    method GetNextFreeCluster(start: nat) returns (c: nat)
      requires Ok() && part.Slack() >= 1
      modifies part.io
      ensures Untouched()
      ensures c == (var xs := FreeIn(Table(), start, g.dcc); if xs == [] then 0 else xs[0])
    {
      hide Partition.Disc, Partition.Slack, FileSystem.Table, FileSystem.Ok, FileSystem.Around;
      c := start;
      while c < g.dcc
        invariant Untouched() && start <= c
        invariant forall i :: start <= i < c && i < g.dcc ==> Table()[i] != 0
      {
        var v := GetNextClusterAddress(c);
        if v == 0 {
          FirstFree(Table(), start, g.dcc, c);
          return c;
        }
        c := c + 1;
      }
      NoneFree(Table(), start, g.dcc);
      return 0;
    }

    /** fat_countFreeClusters */
    method CountFreeClusters() returns (fc: nat)
      requires Ok() && part.Slack() >= 1
      modifies part.io
      ensures Untouched() && fc == |FreeIn(Table(), 2, g.dcc + 2)|
    {
      hide Partition.Disc, Partition.Slack, FileSystem.Table, FileSystem.Ok, FileSystem.Around, FreeIn;
      var c := 2;
      fc := 0;
      Empty(Table(), 2, 2);
      while c <= g.dcc + 1
        invariant Untouched() && 2 <= c <= g.dcc + 2
        invariant fc == |FreeIn(Table(), 2, c)|
      {
        var v := GetNextClusterAddress(c);
        FreeInNext(Table(), 2, c);
        if v == 0 {
          fc := fc + 1;
        }
        c := c + 1;
      }
    }

    // ---- sectors behind the first FAT ----

    /** Sector `s` is behind the first FAT. */
    ghost predicate IsData(s: nat) {
      g.reserved + g.fatSectors <= s < part.count
    }

    /** Exactly sector `s` has changed, to `bytes`; the FAT has not. */
    twostate predicate Wrote(s: nat, bytes: Sector)
      reads part.io
    {
      && old(Ok()) && Ok() && s < part.count
      && part.Disc() == old(part.Disc())[s := bytes] && part.Outside() == old(part.Outside())
      && Table() == old(Table())
      && part.io.held == old(part.io.held) && part.Slack() == old(part.Slack())
    }

    /** A sector read past the cache's buffers. */
    method ReadSector(s: nat) returns (bytes: Sector)
      requires Ok() && s < part.count
      modifies part.io
      ensures Untouched() && bytes == part.Disc()[s]
    {
      hide CacheOk, Fat, Partition.Disc, Partition.Outside, Partition.Slack, WellFormed;
      Facts();
      bytes := part.DirectSectorRead(s);
    }

    /** A sector read through a buffer. */
    method PeekSector(s: nat) returns (bytes: Sector)
      requires Ok() && s < part.count && part.Slack() >= 1
      modifies part.io
      ensures Untouched() && bytes == part.Disc()[s]
    {
      hide CacheOk, Fat, Partition.Disc, Partition.Outside, Partition.Slack, WellFormed;
      Facts();
      var bp := part.GetSect(s, IOM_MODE_READONLY);
      bytes := part.Load(bp, s);
      part.RelSect(bp);
    }

    /** A whole sector written past the cache's buffers. */
    method WriteSector(s: nat, bytes: Sector)
      requires Ok() && IsData(s)
      modifies part.io
      ensures Wrote(s, bytes)
    {
      hide CacheOk, Fat, Partition.Disc, Partition.Outside, Partition.Slack, WellFormed;
      Facts();
      FatDependsOnFatSectors(g, part.Disc(), part.Disc()[s := bytes]);
      part.DirectSectorWrite(s, bytes);
    }

    /** Part of a sector written through a buffer. */
    method PatchSector(s: nat, off: nat, bs: seq<Byte>)
      requires Ok() && IsData(s) && off + |bs| <= SECTOR_SIZE && part.Slack() >= 1
      modifies part.io
      ensures Wrote(s, Splice(old(part.Disc()[s]), off, bs))
    {
      hide CacheOk, Fat, Partition.Disc, Partition.Outside, Partition.Slack, WellFormed;
      Facts();
      FatDependsOnFatSectors(g, part.Disc(), part.Disc()[s := Splice(part.Disc()[s], off, bs)]);
      var bp := part.GetSect(s, IOM_MODE_READWRITE);
      part.Store(bp, s, off, bs);
      part.RelSect(bp);
    }

    /** dir_setFirstCluster */
    method SetFirstCluster(s: nat, i: nat, cluster: nat)
      requires Ok() && IsData(s) && i < 16 && part.Slack() >= 1
      modifies part.io
      ensures Wrote(s, WithCluster(old(part.Disc()[s]), i, cluster))
    {
      hide CacheOk, Fat, Partition.Disc, Partition.Outside, Partition.Slack, WellFormed, Splice;
      Facts();
      FatDependsOnFatSectors(g, part.Disc(), part.Disc()[s := WithCluster(part.Disc()[s], i, cluster)]);
      var bp := part.GetSect(s, IOM_MODE_READWRITE);
      ghost var disc, hi := part.Disc(), Splice(part.Disc()[s], 32 * i + 20, Le16(cluster / UINT16));
      StoreTwice(disc, s, hi, WithCluster(disc[s], i, cluster));
      part.Store(bp, s, 32 * i + 20, Le16(cluster / UINT16));
      part.Store(bp, s, 32 * i + 26, Le16(cluster));
      part.RelSect(bp);
    }

    /** The first half of rmfile: the record's first cluster, and the mark of a deleted file in its name. */
    method MarkDeleted(s: nat, i: nat) returns (first: nat)
      requires Ok() && IsData(s) && i < 16 && part.Slack() >= 1
      modifies part.io
      ensures first == RecordCluster(old(part.Disc()[s]), i)
      ensures Wrote(s, Splice(old(part.Disc()[s]), 32 * i, [DELETED]))
    {
      hide CacheOk, Fat, Partition.Disc, Partition.Outside, Partition.Slack, WellFormed, Splice, GetB16;
      Facts();
      FatDependsOnFatSectors(g, part.Disc(), part.Disc()[s := Splice(part.Disc()[s], 32 * i, [DELETED])]);
      var bp := part.GetSect(s, IOM_MODE_READWRITE);
      var buf := part.Load(bp, s);
      first := GetB16(buf, 32 * i + 20) * UINT16;
      first := first + GetB16(buf, 32 * i + 26);
      part.Store(bp, s, 32 * i, [DELETED]);
      part.RelSect(bp);
    }
  }

  /** The second of two stores to a sector is the one that stays. */
  lemma StoreTwice(disc: seq<Sector>, s: nat, a: Sector, b: Sector)
    requires s < |disc|
    ensures disc[s := a][s] == a && disc[s := a][s := b] == disc[s := b]
  {
  }

  /** The FAT after an allocation of `n` clusters for chain `ch`: nothing for n = 0, else `ch` extended by the clusters
      chosen. */
  ghost predicate Allocated(t: FatType, fat: seq<nat>, ch: seq<nat>, n: nat, fat': seq<nat>) {
    && 2 <= |fat| && ch != []
    && var last := ch[|ch| - 1];
    && var xs := Chosen(fat, last, |fat| - 2, n);
    && last < |fat| && (forall i :: 0 <= i < |xs| ==> xs[i] < |fat|)
    && fat' == (if n == 0 then fat else Extend(t, fat, last, xs))
  }

  lemma AllocatesNothing(t: FatType, fat: seq<nat>, ch: seq<nat>)
    requires IsChain(t, fat, ch)
    ensures Allocated(t, fat, ch, 0, fat)
    ensures Chosen(fat, ch[|ch| - 1], |fat| - 2, 0) == [] && ch + [] == ch
    ensures 0 <= |Candidates(fat, ch[|ch| - 1], |fat| - 2)|
  {
  }

  /** A cluster number fits an entry unchanged. */
  lemma FitsEntry(t: FatType, fat: seq<nat>, c: nat)
    requires Numbered(t, fat) && c < |fat|
    ensures c % Width(t) == c && GiveEoc(t) % Width(t) == GiveEoc(t)
  {
  }
}
