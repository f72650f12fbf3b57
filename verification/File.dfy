/** Open files: reading and writing through the cursor, the FAT and the sector cache. */
module Files {
  import opened Arith
  import opened Bytes
  import opened Geometries
  import opened Chains
  import opened Scans
  import opened Sizes
  import opened FileData
  import opened Partitions
  import opened Slots
  import opened FatEntries
  import opened Directories
  import opened Fats

  /** memCpy into a caller's buffer, from the last byte to the first. */
  method MemCpy(src: seq<Byte>, buf: array<Byte>, at: nat)
    requires at + |src| <= buf.Length
    modifies buf
    ensures buf[..] == Splice(old(buf[..]), at, src)
  {
    var size := |src|;
    while size > 0
      invariant 0 <= size <= |src|
      invariant forall i :: 0 <= i < buf.Length ==>
                              buf[i] == if at + size <= i < at + |src| then src[i - at] else old(buf[i])
    {
      buf[at + size - 1] := src[size - 1];
      size := size - 1;
    }
  }

  /** The bytes moved in one pass of the transfer loops: a whole sector if the position is at its start and enough is
      left, otherwise what is left of the sector or of the request. */
  function Piece(coffset: nat, left: nat): (n: nat)
    ensures left > 0 ==> 0 < n <= left
    ensures n <= 512 - coffset % 512
    ensures n == 512 <==> coffset % 512 == 0 && left >= 512
  {
    if coffset % 512 != 0 || left < 512 then
      if 512 - coffset % 512 >= left then left else 512 - coffset % 512
    else 512
  }

  /** The cluster and the sector in it that the transfer loops compute for a position. */
  function ClusterIndex(g: Geometry, coffset: nat): nat {
    if g.spc == 0 then 0 else Div(coffset, 512 * g.spc)
  }

  function SectorIndex(g: Geometry, coffset: nat): nat {
    if g.spc == 0 then 0 else Mod(coffset / 512, g.spc)
  }

  /** A position is inside the chain if its cluster is, and if its sector is. */
  lemma Position(g: Geometry, ch: seq<nat>, coffset: nat)
    requires g.spc > 0
    ensures ClusterIndex(g, coffset) < |ch| <==> coffset < 512 * Sectors(g, ch)
    ensures coffset < 512 * Sectors(g, ch) <==> coffset / 512 < Sectors(g, ch)
  {
    DivDiv512(coffset, g.spc);
    var q := coffset / 512;
    if q < |ch| * g.spc {
      SplitBelow(q, |ch|, g.spc);
    } else {
      DivMod(q, g.spc);
      AtLeast(q, |ch|, g.spc);
    }
  }

  /** The sector the transfer loops address. */
  lemma LocatedSector(g: Geometry, ch: seq<nat>, coffset: nat)
    requires g.spc > 0 && ClusterIndex(g, coffset) < |ch| && ch[ClusterIndex(g, coffset)] >= 2
    ensures SectorOf(g, ch, coffset / 512) == ClusterToSector(g, ch[ClusterIndex(g, coffset)]) + SectorIndex(g, coffset)
  {
    DivDiv512(coffset, g.spc);
    hide ClusterToSector;
  }

  /** The piece of the chain's bytes in it. */
  lemma LocatedBytes(g: Geometry, disc: seq<Sector>, fat: seq<nat>, ch: seq<nat>, coffset: nat, n: nat)
    requires WellFormed(g, |disc|) && |fat| == g.dcc + 2 && IsChain(g.fatType, fat, ch)
    requires coffset < 512 * Sectors(g, ch) && n <= 512 - coffset % 512
    ensures g.reserved + g.fatSectors <= SectorOf(g, ch, coffset / 512) < |disc|
    ensures coffset + n <= 512 * Sectors(g, ch)
    ensures ChainBytes(g, disc, ch)[coffset..coffset + n] == disc[SectorOf(g, ch, coffset / 512)][coffset % 512..coffset % 512 + n]
  {
    hide WellFormed, ClusterToSector, Sectors, ChainBytes, SectorOf;
    ChainIsData(g, fat, ch);
    assert coffset / 512 < Sectors(g, ch);
    SectorOnDisc(g, |disc|, ch, coffset / 512);
    StretchOfSector(g, |disc|, disc, ch, coffset / 512, coffset % 512, n);
  }

  lemma ChainIsData(g: Geometry, fat: seq<nat>, ch: seq<nat>)
    requires |fat| == g.dcc + 2 && IsChain(g.fatType, fat, ch)
    ensures DataClusters(g, ch) && ch != []
  {
  }

  lemma AtLeast(q: nat, n: nat, d: nat)
    requires d > 0 && q >= n * d
    ensures q / d >= n
  {
    DivMod(q, d);
    assert d * (q / d + 1) == q / d * d + d;
    Commute(n, d);
    MulCancel(d, n, q / d + 1);
  }

  class File {
    const fs: FileSystem
    const cache: ClusterChain
    var filePtr: nat
    var fileSize: nat
    var isOpen: bool
    var canWrite: bool
    var locSector: nat          // where the directory entry is
    var locOffset: nat

    ghost var chain: seq<nat>   // the file's clusters

    constructor (fs: FileSystem, cache: ClusterChain)
      ensures this.fs == fs && this.cache == cache
    {
      this.fs, this.cache := fs, cache;
      filePtr, fileSize, isOpen, canWrite, locSector, locOffset, chain := 0, 0, false, false, 0, 0, [];
    }

    ghost predicate Valid()
      reads this, cache, fs.part.io
    {
      && fs.Ok()
      && cache.Tracks(chain)
      && (chain != [] ==> IsChain(fs.g.fatType, fs.Table(), chain))
      && Measured(fs.g, chain, fileSize)
    }

    /** All bytes of the file's clusters. */
    ghost function Raw(): (bs: seq<Byte>)
      requires fs.Ok()
      reads this, fs.part.io
      ensures |bs| == 512 * Sectors(fs.g, chain)
    {
      ChainBytes(fs.g, fs.part.Disc(), chain)
    }

    /** The bytes of the file. */
    ghost function Content(): (bs: seq<Byte>)
      requires fs.Ok() && Measured(fs.g, chain, fileSize)
      reads this, fs.part.io
      ensures |bs| == fileSize
    {
      Raw()[..fileSize]
    }

    /** One pass of the read loop: the next piece at `coffset`, or nothing if the chain does not reach that far. */
    method ReadPiece(coffset: nat, left: nat) returns (ok: bool, piece: seq<Byte>)
      requires Valid() && chain != [] && left > 0 && fs.part.Slack() >= Buffers(fs.g)
      modifies fs.part.io, cache
      ensures fs.Untouched() && cache.Tracks(chain)
      ensures cache.firstCluster == old(cache.firstCluster) && cache.clusterCount == old(cache.clusterCount)
      ensures ok <==> coffset < |Raw()|
      ensures ok ==> coffset + Piece(coffset, left) <= |Raw()| && piece == Raw()[coffset..coffset + Piece(coffset, left)]
    {
      hide CacheOk, Fat, Partition.Disc, Partition.Outside, Partition.Slack, FileSystem.Table, Partition.Ready;
      hide WellFormed, ChainBytes, SectorOf, Sectors, ClusterChain.Tracks, ChainFrom, Measured, ClusterToSector, Splice, ClusterIndex, SectorIndex;
      SpcPositive(fs.g, fs.part.count);
      Position(fs.g, chain, coffset);
      if coffset < 512 * Sectors(fs.g, chain) {
        LocatedBytes(fs.g, fs.part.Disc(), fs.Table(), chain, coffset, Piece(coffset, left));
      }
      ChainIsData(fs.g, fs.Table(), chain);
      var cclus := ClusterIndex(fs.g, coffset);
      var csec := SectorIndex(fs.g, coffset);
      var btr := Piece(coffset, left);
      var e := fs.LogicToDiscCluster(cache, cclus, chain, 0);
      if e != 0 {
        return false, [];
      }
      LocatedSector(fs.g, chain, coffset);
      var rsec := ClusterToSector(fs.g, cache.discCluster);
      if btr == 512 {
        piece := fs.ReadSector(rsec + csec);
      } else {
        var tbuf := fs.PeekSector(rsec + csec);
        piece := tbuf[coffset % 512..coffset % 512 + btr];
      }
      ok := true;
    }

    /** The read loop: `size` bytes of the chain from `offset`, or 0 if the chain ends before them. */
    method ReadLoop(offset: nat, size: nat, buf: array<Byte>) returns (n: nat)
      requires Valid() && (chain != [] || size == 0) && size <= buf.Length && fs.part.Slack() >= Buffers(fs.g)
      modifies fs.part.io, cache, buf
      ensures fs.Untouched() && cache.Tracks(chain)
      ensures cache.firstCluster == old(cache.firstCluster) && cache.clusterCount == old(cache.clusterCount)
      ensures n == if size == 0 || offset + size <= |Raw()| then size else 0
      ensures n == size ==> (n > 0 ==> buf[..n] == Raw()[offset..offset + n]) && buf[n..] == old(buf[n..])
    {
      hide Partition.Disc, Partition.Outside, Partition.Slack, FileSystem.Table, Partition.Ready, FileSystem.Ok, FileSystem.Around;
      hide ChainBytes, Sectors, ClusterChain.Tracks, ChainFrom, Measured;
      n := 0;
      var left: nat, coffset: nat := size, offset;
      ghost var raw, before := Raw(), buf[..];
      while left > 0
        invariant fs.Untouched() && cache.Tracks(chain)
        invariant cache.firstCluster == old(cache.firstCluster) && cache.clusterCount == old(cache.clusterCount)
        invariant n + left == size && coffset == offset + n
        invariant Raw() == raw && (n > 0 ==> coffset <= |raw|)
        invariant n > 0 ==> buf[..n] == raw[offset..coffset]
        invariant buf[n..] == before[n..]
        decreases left
      {
        var ok, piece := ReadPiece(coffset, left);
        if !ok {
          return 0;
        }
        CopiedOn(buf[..], before, raw, offset, n, piece);
        MemCpy(piece, buf, n);
        var btr := |piece|;
        coffset := coffset + btr;
        n := n + btr;
        left := left - btr;
      }
    }

    /** file_fread. A request is cut at the end of the file unless offset + size wraps round to at most the file size;
        then the walk runs off the chain and 0 is returned. */
    method FRead(offset: nat, size: nat, buf: array<Byte>) returns (n: nat)
      requires Valid() && size <= buf.Length && offset < UINT32 && size < UINT32 && (isOpen ==> fs.part.Slack() >= Buffers(fs.g))
      modifies fs.part.io, cache, buf
      ensures Valid() && fs.Untouched()
      ensures cache.firstCluster == old(cache.firstCluster) && cache.clusterCount == old(cache.clusterCount)
      ensures n == if isOpen && Cuts(fileSize, offset, size) then ReadLength(fileSize, offset, size) else 0
      ensures n > 0 ==> buf[..n] == Content()[offset..offset + n]
      ensures !isOpen || Cuts(fileSize, offset, size) ==> buf[n..] == old(buf[n..])
    {
      hide Partition.Disc, Partition.Outside, Partition.Slack, FileSystem.Table, Partition.Ready, FileSystem.Ok, FileSystem.Around;
      hide ChainBytes, Sectors, ClusterChain.Tracks, ChainFrom;
      if !isOpen {
        return 0;
      }
      var left := size;
      if offset >= fileSize {
        left := 0;
      }
      if (offset + size) % UINT32 > fileSize && left != 0 {
        left := fileSize - offset;
      }
      if chain == [] { NoClusters(fs.g); }
      n := ReadLoop(offset, left, buf);
      if n > 0 { PartOfFile(Raw(), fileSize, offset, n); }
    }

    /** file_read */
    method Read(size: nat, buf: array<Byte>) returns (n: nat)
      requires Valid() && size <= buf.Length && filePtr < UINT32 && size < UINT32 && (isOpen ==> fs.part.Slack() >= Buffers(fs.g))
      modifies fs.part.io, cache, buf, this`filePtr
      ensures Valid() && fs.Untouched()
      ensures n == if isOpen && Cuts(fileSize, old(filePtr), size) then ReadLength(fileSize, old(filePtr), size) else 0
      ensures n > 0 ==> buf[..n] == Content()[old(filePtr)..old(filePtr) + n]
      ensures !isOpen || Cuts(fileSize, old(filePtr), size) ==> buf[n..] == old(buf[n..])
      ensures filePtr == old(filePtr) + n
      ensures cache.firstCluster == old(cache.firstCluster) && cache.clusterCount == old(cache.clusterCount)
    {
      hide Partition.Disc, Partition.Outside, Partition.Slack, FileSystem.Table, Partition.Ready, FileSystem.Ok, FileSystem.Around;
      hide ChainBytes, Sectors, ClusterChain.Tracks, ChainFrom, Measured;
      n := FRead(filePtr, size, buf);
      filePtr := filePtr + n;
    }

    /** file_setpos */
    method SetPos(pos: nat) returns (r: int)
      modifies this`filePtr
      ensures r == if pos <= fileSize then 0 else -1
      ensures filePtr == if pos <= fileSize then pos else old(filePtr)
    {
      if pos <= fileSize {
        filePtr := pos;
        return 0;
      }
      return -1;
    }

    // ---- writing ----

    /** One pass of the write loop: `piece` stored at `coffset`, or nothing if the chain does not reach that far. */
    method WritePiece(coffset: nat, left: nat, piece: seq<Byte>) returns (ok: bool, ghost bytes: Sector)
      requires Valid() && chain != [] && left > 0 && fs.part.Slack() >= Buffers(fs.g) && |piece| == Piece(coffset, left)
      modifies fs.part.io, cache
      ensures fs.Ok() && fs.Table() == old(fs.Table()) && cache.Tracks(chain)
      ensures cache.firstCluster == old(cache.firstCluster) && cache.clusterCount == old(cache.clusterCount)
      ensures ok <==> coffset < |Raw()|
      ensures !ok ==> fs.Untouched()
      ensures ok ==> coffset + |piece| <= |Raw()| && Raw() == Splice(old(Raw()), coffset, piece)
                     && fs.Wrote(SectorOf(fs.g, chain, coffset / 512), bytes)
    {
      hide CacheOk, Fat, Partition.Disc, Partition.Outside, Partition.Slack, FileSystem.Table, Partition.Ready, Rest;
      hide WellFormed, ChainBytes, SectorOf, Sectors, ClusterChain.Tracks, ChainFrom, Measured, ClusterToSector, Splice, Distinct, ClusterIndex, SectorIndex;
      SpcPositive(fs.g, fs.part.count);
      Position(fs.g, chain, coffset);
      ghost var disc := fs.part.Disc();
      ghost var sec := SectorOf(fs.g, chain, coffset / 512);
      if coffset < 512 * Sectors(fs.g, chain) {
        LocatedBytes(fs.g, disc, fs.Table(), chain, coffset, |piece|);
      }
      ChainIsData(fs.g, fs.Table(), chain);
      ChainDistinct(fs.g.fatType, fs.Table(), chain);
      bytes := Zero();
      var cclus := ClusterIndex(fs.g, coffset);
      var csec := SectorIndex(fs.g, coffset);
      var btr := Piece(coffset, left);
      var e := fs.LogicToDiscCluster(cache, cclus, chain, 0);
      if e != 0 {
        return false, bytes;
      }
      LocatedSector(fs.g, chain, coffset);
      var rsec := ClusterToSector(fs.g, cache.discCluster);
      bytes := Splice(disc[sec], coffset % 512, piece);
      if btr == 512 {
        SpliceAll(disc[sec], piece);
        fs.WriteSector(rsec + csec, piece);
      } else {
        fs.PatchSector(rsec + csec, coffset % 512, piece);
      }
      StoreOnChain(fs.g, fs.part.count, disc, fs.part.Disc(), chain, coffset / 512, coffset % 512, piece);
      ok := true;
    }

    /** Only sectors of the file's clusters have changed. */
    twostate predicate Stored()
      reads this, fs.part.io
    {
      && old(fs.Ok()) && fs.Ok()
      && fs.Table() == old(fs.Table())
      && OnlyChainChanged(fs.g, chain, old(fs.part.Disc()), fs.part.Disc())
      && fs.part.Outside() == old(fs.part.Outside())
      && fs.part.io.held == old(fs.part.io.held) && fs.part.Slack() == old(fs.part.Slack())
    }

    /** The write loop: as much of `data` as the chain has room for from `offset` on. */
    method WriteLoop(offset: nat, data: seq<Byte>) returns (w: nat)
      requires Valid() && (chain != [] || data == []) && fs.part.Slack() >= Buffers(fs.g)
      modifies fs.part.io, cache
      ensures Stored() && cache.Tracks(chain)
      ensures cache.firstCluster == old(cache.firstCluster) && cache.clusterCount == old(cache.clusterCount)
      ensures w == Reach(|Raw()|, offset, |data|)
      ensures Raw() == Overlay(old(Raw()), offset, data[..w])
      ensures data == [] ==> fs.Untouched()
    {
      hide CacheOk, Fat, Partition.Disc, Partition.Outside, Partition.Slack, FileSystem.Table, Partition.Ready, Rest;
      hide WellFormed, ChainBytes, SectorOf, Sectors, ClusterChain.Tracks, ChainFrom, Measured, Splice, OnlyChainChanged;
      w := 0;
      var left: nat, coffset: nat := |data|, offset;
      ghost var raw, disc := Raw(), fs.part.Disc();
      NothingChanged(fs.g, chain, disc);
      while left > 0
        invariant Stored() && cache.Tracks(chain)
        invariant cache.firstCluster == old(cache.firstCluster) && cache.clusterCount == old(cache.clusterCount)
        invariant w + left == |data| && coffset == offset + w
        invariant data == [] ==> fs.Untouched()
        invariant |Raw()| == |raw| && (w > 0 ==> coffset <= |raw|)
        invariant Raw() == Overlay(raw, offset, data[..w])
        decreases left
      {
        var btr := Piece(coffset, left);
        ghost var before := fs.part.Disc();
        var ok;
        ghost var bytes;
        ok, bytes := WritePiece(coffset, left, data[w..w + btr]);
        if !ok {
          break;
        }
        ChainStoreFrame(fs.g, chain, disc, before, coffset / 512, bytes);
        OverlayOn(raw, offset, data, w, btr);
        coffset := coffset + btr;
        w := w + btr;
        left := left - btr;
      }
    }

    /** The cluster count in the cursor is unknown or right. */
    ghost predicate CountKnown()
      reads this, cache
    {
      cache.clusterCount == 0 || cache.clusterCount == |chain|
    }

    /** file_requiredCluster: the number of clusters missing for a write that ends at offset + size. */
    method RequiredClusters(offset: nat, size: nat) returns (need: nat)
      requires Valid() && CountKnown() && fs.part.Slack() >= Buffers(fs.g) && offset + size + 512 * fs.g.spc <= UINT32
      modifies fs.part.io, cache
      ensures fs.Untouched() && Valid() && CountKnown()
      ensures cache.firstCluster == old(cache.firstCluster)
      ensures need == Missing(fs.g, |chain|, offset + size)
      ensures need > 0 ==> cache.clusterCount == |chain|
    {
      hide Partition.Disc, Partition.Outside, Partition.Slack, FileSystem.Table, Partition.Ready, FileSystem.Around;
      hide WellFormed, ChainBytes, ClusterChain.Tracks, ChainFrom, CeilDiv, RequiredCluster;
      SpcPositive(fs.g, fs.part.count);
      MeasuredClusters(fs.g, chain, fileSize);
      RequiredExact(offset, size, fileSize, |chain|, 512 * fs.g.spc);
      hide Measured;
      if (offset + size) % UINT32 > fileSize {
        if cache.clusterCount == 0 {
          Counted();
        }
        need := RequiredCluster(offset, size, fileSize, cache.clusterCount, 512 * fs.g.spc);
      } else {
        NotRequired(offset, size, fileSize, |chain|, 512 * fs.g.spc);
        need := 0;
      }
    }

    /** The chain counted and the count kept. */
    method Counted()
      requires Valid() && fs.part.Slack() >= Buffers(fs.g)
      modifies fs.part.io, cache
      ensures fs.Untouched() && Valid()
      ensures cache.firstCluster == old(cache.firstCluster) && cache.clusterCount == |chain|
    {
      hide Partition.Disc, Partition.Outside, Partition.Slack, FileSystem.Table, Partition.Ready, FileSystem.Ok, FileSystem.Around;
      hide ChainBytes, Measured, ChainFrom;
      cache.Here(chain);
      if chain != [] { FirstInRange(fs.g.fatType, fs.Table(), chain, 0); }
      var hc := fs.CountClustersInChain(cache.firstCluster, chain);
      cache.clusterCount := hc;
    }

    /** The first half of file_fwrite: make the chain long enough for `size` bytes at `offset`. The chain grows by the
        clusters missing, or by all there are; whether the write goes on depends on what the allocation reports. A file
        without clusters gets none. */
    method Reserve(offset: nat, size: nat) returns (ok: bool)
      requires Valid() && CountKnown() && fs.part.Slack() >= Buffers(fs.g) + 1 && offset + size + 512 * fs.g.spc <= UINT32
      modifies fs.part.io, cache, fs`freeClusterCount, this`chain
      ensures fs.FatTouched() && Valid() && (chain == [] <==> old(chain) == [])
      ensures old(chain) == [] ==>
                fs.Untouched() && CountKnown() && (ok <==> Int16(Missing(fs.g, 0, offset + size)) == 0)
      ensures old(chain) != [] ==>
              var need, fat, last := Missing(fs.g, |old(chain)|, offset + size), old(fs.Table()), old(chain)[|old(chain)| - 1];
              && chain == old(chain) + Chosen(fat, last, fs.g.dcc, need)
              && Allocated(fs.g.fatType, fat, old(chain), need, fs.Table())
              && (ok <==> Int16(Shortfall(fat, last, fs.g.dcc, need)) == 0)
              && (need <= |Candidates(fat, last, fs.g.dcc)| ==> ok && CountKnown() && offset + size <= |Raw()|)
    {
      hide Partition.Disc, Partition.Outside, Partition.Slack, FileSystem.Table, Partition.Ready, FileSystem.Around;
      hide WellFormed, ChainBytes, Sectors, ClusterChain.Tracks, ChainFrom, CeilDiv, Missing, Allocated, Chosen, Candidates, Measured;
      ghost var fat, ch, last := fs.Table(), chain, if chain == [] then 0 else chain[|chain| - 1];
      ok := true;
      var need := RequiredClusters(offset, size);
      SpcPositive(fs.g, fs.part.count);
      cache.Here(chain);
      if chain != [] {
        GrownMeasured(fs.g, ch, Chosen(fat, last, fs.g.dcc, need), fileSize, offset + size);
        if need <= |Candidates(fat, last, fs.g.dcc)| { EnoughSucceeds(fat, last, fs.g.dcc, need); }
        FirstInRange(fs.g.fatType, fs.Table(), chain, 0);
      }
      if need != 0 {
        var r := fs.AllocClusterChain(cache, need, chain);
        ok := r == 0;
        if chain != [] {
          GrownChain(fs.g.fatType, fat, ch, need, fs.Table());
          chain := chain + Chosen(fat, last, fs.g.dcc, need);
        }
      } else if chain != [] {
        AllocatesNothing(fs.g.fatType, fat, ch);
        EnoughSucceeds(fat, last, fs.g.dcc, 0);
      }
    }

    /** The directory entry lies behind the first FAT, in no cluster that is the file's or could become so. */
    ghost predicate Placed()
      reads this, fs.part.io
    {
      fs.Ok() && fs.IsData(locSector) && locOffset < 16 && Apart(fs.g, fs.Table(), chain, locSector)
    }

    /** dir_setFileSize */
    method SetFileSize(n: nat)
      requires Valid() && Placed() && fs.part.Slack() >= 1
      modifies fs.part.io
      ensures fs.Wrote(locSector, WithSize(old(fs.part.Disc()[locSector]), locOffset, n))
      ensures HoldsSize(old(fs.part.Disc()[locSector]), fs.part.Disc()[locSector], locOffset, n)
      ensures Raw() == old(Raw()) && Valid()
    {
      hide CacheOk, Fat, Partition.Disc, Partition.Outside, Partition.Slack, FileSystem.Table, Partition.Ready;
      hide WellFormed, ChainBytes, SectorOf, Sectors, ClusterChain.Tracks, ChainFrom, Measured, Splice, Apart, OnChain, HoldsSize;
      ghost var disc := fs.part.Disc();
      SizeBytes(disc[locSector], locOffset, n);
      fs.PatchSector(locSector, 32 * locOffset + 28, Le32(n));
      if chain != [] { ChainIsData(fs.g, fs.Table(), chain); }
      ApartNotOnChain(fs.g, fs.part.count, fs.Table(), chain, locSector);
      OffChainStore(fs.g, fs.part.count, chain, disc, locSector, fs.part.Disc()[locSector]);
    }

    /** The second half of file_fwrite: transfer what the chain has room for and set the file size. A transfer that ends
        early adds what was written to the file size, wherever it was written, and records that in the directory. */
    method Transfer(offset: nat, clamped: nat, data: seq<Byte>) returns (w: nat)
      requires Valid() && Placed() && (chain != [] || data == []) && fs.part.Slack() >= Buffers(fs.g)
      requires clamped == (if offset > fileSize then fileSize else offset) && clamped + |data| + 512 * fs.g.spc <= UINT32
      modifies fs.part.io, cache, this`fileSize
      ensures fs.Ok() && fs.Table() == old(fs.Table()) && cache.Tracks(chain) && fs.part.Slack() == old(fs.part.Slack())
      ensures fs.part.Outside() == old(fs.part.Outside()) && fs.part.io.held == old(fs.part.io.held)
      ensures cache.firstCluster == old(cache.firstCluster) && cache.clusterCount == old(cache.clusterCount)
      ensures w == Reach(|Raw()|, offset, |data|)
      ensures Raw() == Overlay(old(Raw()), offset, data[..w])
      ensures fileSize == NewSize(old(fileSize), clamped, |data|, w)
      ensures w == |data| ==> OnlyChainChanged(fs.g, chain, old(fs.part.Disc()), fs.part.Disc())
      ensures w < |data| ==>
                && HoldsSize(old(fs.part.Disc()[locSector]), fs.part.Disc()[locSector], locOffset, fileSize)
                && OnlyChainChanged(fs.g, chain, old(fs.part.Disc()), fs.part.Disc()[locSector := old(fs.part.Disc()[locSector])])
      ensures offset == old(fileSize) || (w == |data| && offset < old(fileSize)) ==> Measured(fs.g, chain, fileSize)
      ensures data == [] ==> fs.Untouched()
    {
      hide CacheOk, Fat, Partition.Disc, Partition.Outside, Partition.Slack, FileSystem.Table, Partition.Ready, Rest;
      hide WellFormed, ChainBytes, ClusterChain.Tracks, ChainFrom, OnlyChainChanged, Sectors, Overlay, Apart, HoldsSize, WithSize;
      SizeAfter(fs.g, chain, fileSize, clamped, |data|);
      if offset == fileSize { SizeAtEnd(fs.g, chain, fileSize, |data|); }
      hide Measured, NewSize, Reach;
      ghost var disc := fs.part.Disc();
      w := WriteLoop(offset, data);
      if w < |data| {
        var n := NewSize(fileSize, clamped, |data|, w);
        RecordOffChain(fs.g, fs.part.count, fs.Table(), chain, locSector, disc, fs.part.Disc());
        ghost var disc1 := fs.part.Disc();
        SetFileSize(n);
        assert fs.part.Disc()[locSector := disc1[locSector]] == disc1;
        fileSize := n;
        return;
      }
      if w > fileSize - clamped {
        fileSize := fileSize + (w - (fileSize - clamped));
      }
    }

    /** What a transfer that ends early leaves: the old file size plus what was written, wherever it was written, in 32
        bits, in the object and in the last four bytes of the directory record. No other byte of the record's sector is
        different, and no other sector outside the first FAT and the file's clusters. */
    twostate predicate CutShort(r: nat)
      reads this, fs.part.io
    {
      && old(fs.Ok()) && fs.Ok() && locSector < fs.part.count && locOffset < 16
      && fileSize == (old(fileSize) + r) % 0x1_0000_0000
      && HoldsSize(old(fs.part.Disc())[locSector], fs.part.Disc()[locSector], locOffset, fileSize)
      && OnlyFileChanged(fs.g, chain, old(fs.part.Disc()), fs.part.Disc()[locSector := old(fs.part.Disc())[locSector]])
    }

    /** A write refused for want of clusters: the file is the same. */
    twostate predicate Refused()
      requires old(Valid())
      reads this, cache, fs.part.io
    {
      Valid() && Placed() && fileSize == old(fileSize) && Content() == old(Content())
    }

    /** An append cut short: the file ends where its clusters end, after as much of the data as they have room for. */
    twostate predicate AppendedInPart(data: seq<Byte>, r: nat)
      requires old(Valid())
      reads this, cache, fs.part.io
    {
      && Valid() && Placed()
      && r < |data| && fileSize == old(fileSize) + r == |Raw()|
      && Content() == old(Content()) + data[..r]
    }

    /** What file_fwrite does after the allocation reported success or failure: nothing, or as much of the data as the
        chain has room for at the offset asked for, with the file size that follows. */
    twostate predicate WroteAt(ok: bool, offset: nat, data: seq<Byte>, r: nat)
      reads this, fs.part.io
    {
      && old(fs.Ok()) && fs.Ok()
      && if !ok then r == 0 && fileSize == old(fileSize) && fs.FatTouched()
         else
           && r == (if offset + |data| <= |Raw()| then |data| else if offset < |Raw()| then |Raw()| - offset else 0)
           && Raw() == Overlay(ChainBytes(fs.g, old(fs.part.Disc()), chain), offset, data[..r])
           && if r < |data| then CutShort(r)
              else if offset > old(fileSize) then fileSize == old(fileSize) + |data|
              else fileSize == if offset + |data| > old(fileSize) then offset + |data| else old(fileSize)
    }

    /** The write is a splice of the file's bytes; nothing outside the first FAT and the file's clusters has changed. */
    twostate predicate SplicedIn(offset: nat, data: seq<Byte>, r: nat)
      requires old(Valid())
      reads this, cache, fs.part.io
    {
      && r == |data|
      && Valid() && Placed() && CountKnown()
      && offset <= old(fileSize) && Content() == Spliced(old(Content()), offset, data)
      && OnlyFileChanged(fs.g, chain, old(fs.part.Disc()), fs.part.Disc())
      && fs.part.Outside() == old(fs.part.Outside())
      && fs.part.io.held == old(fs.part.io.held) && fs.part.Slack() == old(fs.part.Slack())
    }

    /** What file_fwrite amounts to on a file with clusters. The chain grows by the clusters missing for a write at the
        clamped offset, as far as there are free ones. If the allocation reports failure nothing is written; otherwise
        the data goes to the offset asked for, as far as the chain reaches. With enough free clusters and an offset inside
        the file this is a splice. */
    twostate predicate Written(offset: nat, data: seq<Byte>, r: nat)
      requires old(Valid()) && old(chain) != []
      reads this, cache, fs.part.io
    {
      var start := if offset > old(fileSize) then old(fileSize) else offset;
      var need := Missing(fs.g, |old(chain)|, start + |data|);
      var fat, last := old(fs.Table()), old(chain)[|old(chain)| - 1];
      && chain == old(chain) + Chosen(fat, last, fs.g.dcc, need)
      && fs.Ok() && Allocated(fs.g.fatType, fat, old(chain), need, fs.Table())
      && WroteAt(Int16(Shortfall(fat, last, fs.g.dcc, need)) == 0, offset, data, r)
      && (need <= |Candidates(fat, last, fs.g.dcc)| && offset <= old(fileSize) ==> SplicedIn(offset, data, r))
      && (if Int16(Shortfall(fat, last, fs.g.dcc, need)) != 0 then Refused()
          else offset == old(fileSize) && r < |data| ==> AppendedInPart(data, r))
      && (offset <= old(fileSize) && data != [] ==> (r == |data| <==> need <= |Candidates(fat, last, fs.g.dcc)|))
    }

    /** The file can be written: a file without clusters is sure to be refused clusters, which fails only if the number
        it needs is a multiple of 65536. */
    ghost predicate Writable(offset: nat, data: seq<Byte>)
      reads this, cache, fs.part.io
    {
      && Valid() && CountKnown() && Placed() && fs.part.Slack() >= Buffers(fs.g) + 1
      && Clamped(fileSize, offset) + |data| + 512 * fs.g.spc <= UINT32
      && (chain == [] && data != [] ==> Int16(Missing(fs.g, 0, |data|)) != 0)
    }

    /** file_fwrite */
    method FWrite(offset: nat, data: seq<Byte>) returns (r: nat)
      requires Valid() && (isOpen && canWrite ==> Writable(offset, data))
      modifies fs.part.io, cache, fs`freeClusterCount, this`chain, this`fileSize
      ensures !(isOpen && canWrite) ==> r == 0 && fs.Untouched() && unchanged(this) && unchanged(cache)
      ensures isOpen && canWrite && old(chain) == [] ==>
                r == 0 && fs.Untouched() && Valid() && CountKnown() && chain == [] && fileSize == old(fileSize)
      ensures isOpen && canWrite && old(chain) != [] ==> Written(offset, data, r)
    {
      hide CacheOk, Fat, Partition.Disc, Partition.Outside, Partition.Slack, FileSystem.Table, Partition.Ready, Rest;
      hide WellFormed, ChainBytes, ClusterChain.Tracks, ChainFrom, OnlyChainChanged, Sectors, Overlay, Apart, Missing;
      hide Chosen, Candidates, Shortfall, Allocated, HoldsSize, OnlyFileChanged, Reach, NewSize, Spliced, Measured;
      if !(isOpen && canWrite) {
        return 0;
      }
      var clamped := Clamped(fileSize, offset);
      ghost var fat, ch, disc := fs.Table(), chain, fs.part.Disc();
      ghost var need := Missing(fs.g, |chain|, clamped + |data|);
      if chain == [] { NothingIn(fs.g, fileSize); }
      SpcPositive(fs.g, fs.part.count);
      var ok := Reserve(clamped, |data|);
      if ch != [] {
        ApartGrown(fs.g, fat, ch, need, fs.Table(), locSector);
        if data != [] { TooFewClusters(fs.g, fat, ch, clamped, |data|); }
        SameBytes(fs.g, fs.part.count, fs.Table(), disc, fs.part.Disc(), ch, chain, fileSize);
      }
      if !ok {
        return 0;
      }
      r := TransferGrown(offset, clamped, data, ch, disc);
    }

    /** The transfer, seen from before the allocation, when the file's clusters were `ch` and the disc was `disc`. */
    method TransferGrown(offset: nat, clamped: nat, data: seq<Byte>, ghost ch: seq<nat>, ghost disc: seq<Sector>) returns (w: nat)
      requires Valid() && Placed() && (chain != [] || data == []) && fs.part.Slack() >= Buffers(fs.g)
      requires clamped == (if offset > fileSize then fileSize else offset) && clamped + |data| + 512 * fs.g.spc <= UINT32
      requires |disc| == fs.part.count && fs.g.reserved + fs.g.fatSectors <= |disc| && Rest(fs.g, disc) == Rest(fs.g, fs.part.Disc())
      requires ch <= chain && fileSize <= 512 * Sectors(fs.g, ch)
      requires ChainBytes(fs.g, fs.part.Disc(), chain) == ChainBytes(fs.g, disc, chain)
      modifies fs.part.io, cache, this`fileSize
      ensures fs.Ok() && fs.Table() == old(fs.Table()) && cache.Tracks(chain) && fs.part.Slack() == old(fs.part.Slack())
      ensures fs.part.Outside() == old(fs.part.Outside()) && fs.part.io.held == old(fs.part.io.held)
      ensures cache.firstCluster == old(cache.firstCluster) && cache.clusterCount == old(cache.clusterCount)
      ensures data == [] ==> fs.Untouched()
      ensures w == Reach(|Raw()|, offset, |data|)
      ensures Raw() == Overlay(ChainBytes(fs.g, disc, chain), offset, data[..w])
      ensures w == if offset + |data| <= |Raw()| then |data| else if offset < |Raw()| then |Raw()| - offset else 0
      ensures w < |data| ==> fileSize == (old(fileSize) + w) % 0x1_0000_0000
      ensures w == |data| ==>
                fileSize == if offset > old(fileSize) then old(fileSize) + |data|
                            else if offset + |data| > old(fileSize) then offset + |data| else old(fileSize)
      ensures w < |data| ==>
                && HoldsSize(disc[locSector], fs.part.Disc()[locSector], locOffset, fileSize)
                && OnlyFileChanged(fs.g, chain, disc, fs.part.Disc()[locSector := disc[locSector]])
      ensures w < |data| && offset == old(fileSize) ==>
                && Measured(fs.g, chain, fileSize) && fileSize == offset + w == |Raw()|
                && Raw() == ChainBytes(fs.g, disc, ch)[..offset] + data[..w]
      ensures w == |data| && offset <= old(fileSize) ==>
                && Measured(fs.g, chain, fileSize) && OnlyFileChanged(fs.g, chain, disc, fs.part.Disc())
                && Content() == Spliced(ChainBytes(fs.g, disc, ch)[..old(fileSize)], offset, data)
    {
      hide CacheOk, Fat, Partition.Disc, Partition.Outside, Partition.Slack, FileSystem.Table, Partition.Ready, Rest;
      hide WellFormed, ChainBytes, ClusterChain.Tracks, ChainFrom, OnlyChainChanged, OnlyFileChanged, HoldsSize, Sectors, Overlay, Apart;
      ghost var grown := fs.part.Disc();
      w := Transfer(offset, clamped, data);
      if w < |data| {
        CutFrame(fs.g, disc, grown, fs.part.Disc(), chain, locSector);
        if offset == old(fileSize) { CutAppend(fs.g, disc, fs.part.Disc(), ch, chain, offset, data, w); }
      } else if offset <= old(fileSize) {
        assert data[..w] == data;
        FileSpliced(fs.g, disc, grown, fs.part.Disc(), ch, chain, old(fileSize), offset, data);
      }
    }

    /** file_write */
    method Write(data: seq<Byte>) returns (r: nat)
      requires Valid() && (isOpen && canWrite ==> Writable(filePtr, data))
      modifies fs.part.io, cache, fs`freeClusterCount, this`chain, this`fileSize, this`filePtr
      ensures filePtr == old(filePtr) + r
      ensures !(isOpen && canWrite) ==> r == 0 && fs.Untouched()
      ensures isOpen && canWrite && old(chain) == [] ==>
                r == 0 && fs.Untouched() && Valid() && CountKnown() && chain == [] && fileSize == old(fileSize)
      ensures isOpen && canWrite && old(chain) != [] ==> Written(old(filePtr), data, r)
    {
      hide Partition.Disc, Partition.Outside, Partition.Slack, FileSystem.Table, Partition.Ready, FileSystem.Around;
      hide WellFormed, ChainBytes, ClusterChain.Tracks, ChainFrom, Sectors, Apart, Missing, Chosen, Candidates, Shortfall, Allocated;
      hide Measured, OnlyFileChanged;
      r := FWrite(filePtr, data);
      filePtr := filePtr + r;
    }

    /** The MODE_WRITE branch of file_fopen once a place for the directory entry is known: a default entry, the first
        free cluster below dcc as a chain of its own. Without a free cluster the reserved entry 0 is overwritten and the
        file has no clusters. */
    method Create(name: FatName, sector: nat, offset: nat)
      requires fs.Ok() && fs.part.Slack() >= Buffers(fs.g) && fs.IsData(sector) && offset < 16 && Apart(fs.g, fs.Table(), [], sector)
      modifies fs.part.io, cache, this
      ensures var c := FirstFreeCluster(old(fs.Table()), fs.g.dcc);
              && fs.Ok() && fs.Table() == old(fs.Table())[c := GiveEoc(fs.g.fatType)]
              && chain == (if c == 0 then [] else [c])
              && Rest(fs.g, fs.part.Disc())
                 == Rest(fs.g, old(fs.part.Disc())[sector := Created(old(fs.part.Disc()[sector]), offset, name, c)])
              && Valid() && CountKnown() && Placed()
      ensures NewFile(old(fs.part.Disc()[sector]), fs.part.Disc()[sector], offset, name, if chain == [] then 0 else chain[0])
      ensures isOpen && canWrite && fileSize == filePtr == 0 && locSector == sector && locOffset == offset
      ensures fs.part.Outside() == old(fs.part.Outside()) && fs.part.io.held == old(fs.part.io.held)
      ensures fs.part.Slack() == old(fs.part.Slack())
    {
      hide CacheOk, Fat, Partition.Disc, Partition.Outside, Partition.Slack, FileSystem.Table, Partition.Ready;
      hide WellFormed, ChainFrom, Sectors, Apart, FirstFreeCluster, Created, Rest, Numbered, Measured, ClusterChain.Tracks, NewFile;
      FirstFreeFacts(fs.g, fs.Table());
      CreatedApart(fs.g, fs.Table(), sector);
      CreatedMeasured(fs.g, fs.part.count, FirstFreeCluster(fs.Table(), fs.g.dcc));
      ghost var disc := fs.part.Disc();
      var sec := Enter(name, sector, offset);
      fileSize, filePtr, locSector, locOffset := 0, 0, sector, offset;
      cache.Init(sec);
      fs.SetNextClusterAddress(sec, GiveEoc(fs.g.fatType));
      chain := if sec == 0 then [] else [sec];
      cache.Begins(chain);
      RestSector(fs.g, disc, fs.part.Disc(), sector, Created(disc[sector], offset, name, sec));
      CreatedBytes(disc[sector], offset, name, sec);
      isOpen, canWrite := true, true;
    }

    /** The new directory entry: a default record, then the number of the first free cluster. */
    method Enter(name: FatName, sector: nat, offset: nat) returns (sec: nat)
      requires fs.Ok() && fs.part.Slack() >= 1 && fs.IsData(sector) && offset < 16
      modifies fs.part.io
      ensures sec == FirstFreeCluster(old(fs.Table()), fs.g.dcc)
      ensures fs.Wrote(sector, Created(old(fs.part.Disc()[sector]), offset, name, sec))
    {
      hide CacheOk, Fat, Partition.Disc, Partition.Outside, Partition.Slack, FileSystem.Table, Partition.Ready;
      hide WellFormed, FreeIn, Splice, Rest, WithCluster;
      ghost var disc := fs.part.Disc();
      fs.PatchSector(sector, 32 * offset, DefaultRecord(name));
      sec := fs.GetNextFreeCluster(2);
      StoreTwice(disc, sector, Splice(disc[sector], 32 * offset, DefaultRecord(name)), Created(disc[sector], offset, name, sec));
      fs.SetFirstCluster(sector, offset, sec);
    }
  }

  /** What fs_getNextFreeCluster finds from the hint 2. */
  function FirstFreeCluster(fat: seq<nat>, dcc: nat): (c: nat)
    requires dcc <= |fat|
    ensures c == 0 || 2 <= c < dcc
    ensures c != 0 ==> fat[c] == 0
    ensures forall k :: 2 <= k < (if c == 0 then dcc else c) ==> fat[k] != 0
  {
    var xs := FreeIn(fat, 2, dcc);
    if xs == [] then 0 else xs[0]
  }

  /** The directory sector after a file has been created in it. */
  function Created(s: Sector, i: nat, name: FatName, cluster: nat): Sector
    requires i < 16
  {
    WithCluster(Splice(s, 32 * i, DefaultRecord(name)), i, cluster)
  }

  /** A sector behind the first FAT. */
  lemma RestSector(g: Geometry, disc: seq<Sector>, disc': seq<Sector>, s: nat, x: Sector)
    requires g.reserved + g.fatSectors <= s < |disc| == |disc'| && Rest(g, disc') == Rest(g, disc[s := x])
    ensures disc'[s] == x
  {
    var b := g.reserved + g.fatSectors;
    assert disc'[b..][s - b] == disc[s := x][b..][s - b];
  }

  /** The record of a new file, and after its size has been set to 0. */
  lemma CreatedBytes(s: Sector, i: nat, name: FatName, c: nat)
    requires i < 16
    ensures NewFile(s, Created(s, i, name, c), i, name, c)
    ensures NewFile(s, WithSize(Created(s, i, name, c), i, 0), i, name, c)
  {
    ClusterBytes(Splice(s, 32 * i, DefaultRecord(name)), i, c);
    SizeBytes(Created(s, i, name, c), i, 0);
    hide WithCluster, WithSize;
  }

  lemma FirstFreeFacts(g: Geometry, fat: seq<nat>)
    requires |fat| == g.dcc + 2 && Numbered(g.fatType, fat)
    ensures var c := FirstFreeCluster(fat, g.dcc);
            && c < |fat| && GiveEoc(g.fatType) % Width(g.fatType) == GiveEoc(g.fatType)
            && (c != 0 ==> 2 <= c && fat[c] == 0 && IsChain(g.fatType, fat[c := GiveEoc(g.fatType)], [c]))
  {
  }

  /** A place outside every free cluster stays outside the file's clusters and the free ones. */
  lemma CreatedApart(g: Geometry, fat: seq<nat>, s: nat)
    requires |fat| == g.dcc + 2 && Apart(g, fat, [], s)
    ensures var c := FirstFreeCluster(fat, g.dcc);
            c < |fat| && Apart(g, fat[c := GiveEoc(g.fatType)], if c == 0 then [] else [c], s)
  {
    hide InCluster;
    var c := FirstFreeCluster(fat, g.dcc);
    assert c != 0 ==> fat[c] == 0;
    hide FirstFreeCluster;
  }

  lemma CreatedMeasured(g: Geometry, count: nat, c: nat)
    requires WellFormed(g, count)
    ensures Measured(g, if c == 0 then [] else [c], 0)
  {
    hide DataBase, FatCovers;
    assert Sectors(g, [c]) == g.spc;
  }

  lemma RestBehindFat(g: Geometry, count: nat, ch: seq<nat>, disc: seq<Sector>, disc': seq<Sector>)
    requires WellFormed(g, count) && |disc| == |disc'| == count && DataClusters(g, ch)
    requires g.reserved + g.fatSectors <= count && Rest(g, disc) == Rest(g, disc')
    ensures ChainBytes(g, disc', ch) == ChainBytes(g, disc, ch)
  {
    hide WellFormed, ChainBytes;
    BytesBehindFat(g, count, ch, disc, disc');
  }

  /** First the FAT, then a transfer that fits: together a splice of the file. */
  lemma FileSpliced(g: Geometry, disc: seq<Sector>, grown: seq<Sector>, disc': seq<Sector>, ch: seq<nat>, ch': seq<nat>,
                    fileSize: nat, offset: nat, data: seq<Byte>)
    requires g.reserved + g.fatSectors <= |disc| == |grown| && Rest(g, disc) == Rest(g, grown)
    requires ch <= ch' && offset <= fileSize <= 512 * Sectors(g, ch) && offset + |data| <= 512 * Sectors(g, ch')
    requires ChainBytes(g, grown, ch') == ChainBytes(g, disc, ch')
    requires ChainBytes(g, disc', ch') == Overlay(ChainBytes(g, disc, ch'), offset, data)
    requires OnlyChainChanged(g, ch', grown, disc')
    ensures OnlyFileChanged(g, ch', disc, disc')
    ensures var n := if offset + |data| > fileSize then offset + |data| else fileSize;
            && n <= 512 * Sectors(g, ch')
            && ChainBytes(g, disc', ch')[..n] == Spliced(ChainBytes(g, disc, ch)[..fileSize], offset, data)
  {
    hide ChainBytes, OnlyChainChanged, OnlyFileChanged, Sectors;
    FatThenChain(g, ch', disc, grown, disc');
    var xs := ch'[|ch|..];
    assert ch + xs == ch';
    BytesPrefix(g, disc, ch, xs);
    var raw := ChainBytes(g, disc, ch');
    OverlaySplices(raw, fileSize, offset, data);
    assert raw[..fileSize] == ChainBytes(g, disc, ch)[..fileSize];
    if data == [] { assert Splice(raw, offset, data) == raw; }
  }

  lemma ApartGrown(g: Geometry, fat: seq<nat>, ch: seq<nat>, n: nat, fat': seq<nat>, s: nat)
    requires |fat| == g.dcc + 2 && Numbered(g.fatType, fat) && IsChain(g.fatType, fat, ch)
    requires Allocated(g.fatType, fat, ch, n, fat') && Apart(g, fat, ch, s)
    ensures Apart(g, fat', ch + Chosen(fat, ch[|ch| - 1], g.dcc, n), s)
  {
    hide ChainFrom, Chosen, Candidates, Extend, InCluster;
    LastInRange(g.fatType, fat, ch);
    var last := ch[|ch| - 1];
    var xs := Chosen(fat, last, g.dcc, n);
    ChosenFacts(fat, last, g.dcc, n);
    forall c | 2 <= c < |fat'| && (c in ch + xs || fat'[c] == 0) ensures !InCluster(g, c, s) {
      if c !in ch + xs && n > 0 {
        assert last in ch && last !in xs;
        ExtendFrame(g.fatType, fat, last, xs, c);
      }
    }
  }

  function Clamped(fileSize: nat, offset: nat): nat {
    if offset > fileSize then fileSize else offset
  }

  /** The file size file_fwrite leaves: the end of the write if that is beyond the old end; but the old size plus what
      was written if the transfer ended early. */
  function NewSize(fileSize: nat, clamped: nat, size: nat, w: nat): nat {
    if w < size then (fileSize + w) % UINT32 else if clamped + size > fileSize then clamped + size else fileSize
  }

  lemma SizeAfter(g: Geometry, ch: seq<nat>, fileSize: nat, clamped: nat, size: nat)
    requires Measured(g, ch, fileSize) && clamped <= fileSize && clamped + size + 512 * g.spc <= UINT32
    ensures NewSize(fileSize, clamped, size, size)
         == if size > fileSize - clamped then fileSize + (size - (fileSize - clamped)) else fileSize
    ensures clamped + size <= 512 * Sectors(g, ch) ==> Measured(g, ch, NewSize(fileSize, clamped, size, size))
  {
  }

  /** The same when a write at the end of the file was cut short. */
  lemma SizeAtEnd(g: Geometry, ch: seq<nat>, fileSize: nat, size: nat)
    requires Measured(g, ch, fileSize) && fileSize + size + 512 * g.spc <= UINT32
    ensures var w := Reach(512 * Sectors(g, ch), fileSize, size);
            && Measured(g, ch, NewSize(fileSize, fileSize, size, w))
            && (w < size ==> NewSize(fileSize, fileSize, size, w) == fileSize + w == 512 * Sectors(g, ch))
  {
    hide Sectors;
  }

  /** Nothing written to the file's clusters has changed its directory sector. */
  lemma RecordOffChain(g: Geometry, count: nat, fat: seq<nat>, ch: seq<nat>, s: nat, disc: seq<Sector>, disc': seq<Sector>)
    requires WellFormed(g, count) && |disc| == count && |fat| == g.dcc + 2 && (ch != [] ==> IsChain(g.fatType, fat, ch))
    requires Apart(g, fat, ch, s) && s < count && OnlyChainChanged(g, ch, disc, disc')
    ensures disc'[s] == disc[s]
  {
    hide WellFormed, Apart, OnChain;
    ApartNotOnChain(g, count, fat, ch, s);
  }

  /** First the FAT, then a transfer that changes the record in sector `s` as well. */
  lemma CutFrame(g: Geometry, disc: seq<Sector>, grown: seq<Sector>, disc': seq<Sector>, ch: seq<nat>, s: nat)
    requires g.reserved + g.fatSectors <= s < |disc| == |grown| == |disc'| && Rest(g, disc) == Rest(g, grown)
    requires OnlyChainChanged(g, ch, grown, disc'[s := grown[s]])
    ensures grown[s] == disc[s] && OnlyFileChanged(g, ch, disc, disc'[s := disc[s]])
  {
    hide OnlyChainChanged, OnlyFileChanged;
    var b := g.reserved + g.fatSectors;
    assert grown[b..][s - b] == disc[b..][s - b];
    FatThenChain(g, ch, disc, grown, disc'[s := grown[s]]);
  }

  /** An allocation changes neither the bytes of the chain nor the file. */
  lemma SameBytes(g: Geometry, count: nat, fat: seq<nat>, disc: seq<Sector>, grown: seq<Sector>, ch: seq<nat>, ch': seq<nat>, fileSize: nat)
    requires WellFormed(g, count) && |disc| == |grown| == count && |fat| == g.dcc + 2 && IsChain(g.fatType, fat, ch')
    requires g.reserved + g.fatSectors <= count && Rest(g, disc) == Rest(g, grown)
    requires ch <= ch' && Measured(g, ch, fileSize)
    ensures ChainBytes(g, grown, ch') == ChainBytes(g, disc, ch')
    ensures fileSize <= 512 * Sectors(g, ch) && fileSize <= 512 * Sectors(g, ch') && ChainBytes(g, grown, ch')[..fileSize] == ChainBytes(g, disc, ch)[..fileSize]
  {
    hide WellFormed, ChainBytes, Sectors, Rest;
    ChainIsData(g, fat, ch');
    RestBehindFat(g, count, ch', disc, grown);
    ContentKept(g, disc, grown, ch, ch', fileSize);
  }

  /** A longer chain holds the same file. */
  lemma ContentKept(g: Geometry, disc: seq<Sector>, grown: seq<Sector>, ch: seq<nat>, ch': seq<nat>, fileSize: nat)
    requires ch <= ch' && fileSize <= 512 * Sectors(g, ch) && ChainBytes(g, grown, ch') == ChainBytes(g, disc, ch')
    ensures fileSize <= 512 * Sectors(g, ch') && ChainBytes(g, grown, ch')[..fileSize] == ChainBytes(g, disc, ch)[..fileSize]
  {
    hide ChainBytes, Sectors;
    var xs := ch'[|ch|..];
    assert ch + xs == ch';
    BytesPrefix(g, disc, ch, xs);
  }

  /** Data written at the end of the file up to the end of its clusters. */
  lemma CutAppend(g: Geometry, disc: seq<Sector>, disc': seq<Sector>, ch: seq<nat>, ch': seq<nat>, fileSize: nat, data: seq<Byte>, r: nat)
    requires ch <= ch' && fileSize <= 512 * Sectors(g, ch) && r < |data| && r == Reach(512 * Sectors(g, ch'), fileSize, |data|)
    requires ChainBytes(g, disc', ch') == Overlay(ChainBytes(g, disc, ch'), fileSize, data[..r])
    ensures fileSize + r == 512 * Sectors(g, ch')
    ensures ChainBytes(g, disc', ch') == ChainBytes(g, disc, ch)[..fileSize] + data[..r]
  {
    hide ChainBytes, Sectors;
    ContentKept(g, disc, disc, ch, ch', fileSize);
    var raw := ChainBytes(g, disc, ch');
    assert raw[..fileSize] == ChainBytes(g, disc, ch)[..fileSize];
  }

  lemma OffChainStore(g: Geometry, count: nat, ch: seq<nat>, disc: seq<Sector>, s: nat, bytes: Sector)
    requires WellFormed(g, count) && |disc| == count && DataClusters(g, ch) && s < count && !OnChain(g, ch, s)
    ensures ChainBytes(g, disc[s := bytes], ch) == ChainBytes(g, disc, ch)
  {
    hide WellFormed, SectorOf, Sectors;
    forall i | 0 <= i < 512 * Sectors(g, ch)
      ensures ByteAt(disc[s := bytes], SectorOf(g, ch, i / 512), i % 512) == ByteAt(disc, SectorOf(g, ch, i / 512), i % 512)
    {
      assert i / 512 < Sectors(g, ch);
    }
  }

  /** A chain after an allocation. */
  lemma GrownChain(t: FatType, fat: seq<nat>, ch: seq<nat>, n: nat, fat': seq<nat>)
    requires Numbered(t, fat) && IsChain(t, fat, ch) && Allocated(t, fat, ch, n, fat')
    ensures IsChain(t, fat', ch + Chosen(fat, ch[|ch| - 1], |fat| - 2, n))
  {
    hide Candidates, Chosen, Extend, ChainFrom;
    LastInRange(t, fat, ch);
    var xs := Chosen(fat, ch[|ch| - 1], |fat| - 2, n);
    ChosenFacts(fat, ch[|ch| - 1], |fat| - 2, n);
    if n == 0 {
      assert ch + xs == ch;
    } else {
      ExtendIsChain(t, fat, ch, xs);
    }
  }

  /** The chain with the clusters missing still fits 32 bits, and covers the write if none of them is lacking. */
  lemma GrownMeasured(g: Geometry, ch: seq<nat>, xs: seq<nat>, fileSize: nat, t: nat)
    requires g.spc > 0 && Measured(g, ch, fileSize) && |xs| <= Missing(g, |ch|, t) && t + 512 * g.spc <= UINT32
    ensures Measured(g, ch + xs, fileSize)
    ensures |xs| == Missing(g, |ch|, t) ==> t <= 512 * Sectors(g, ch + xs)
    ensures |ch| + |xs| < UINT32
  {
    var cs, n := 512 * g.spc, |ch| + |xs|;
    var c := CeilDiv(t, cs);
    CeilDivBounds(t, cs);
    CeilDivLeast(t, cs, n);
    hide CeilDiv;
    MeasuredClusters(g, ch, fileSize);
    assert 512 * Sectors(g, ch + xs) == n * cs;
    MulMono(|ch|, n, cs);
    if n <= c {
      MulMono(n, c, cs);
    } else {
      assert xs == [];
    }
    MulMono(1, cs, n);
    assert cs * n == n * cs;
  }

  /** Enough free clusters: the allocation makes all links and reports success. */
  lemma EnoughSucceeds(fat: seq<nat>, last: nat, dcc: nat, n: nat)
    requires |fat| == dcc + 2 && n <= |Candidates(fat, last, dcc)|
    ensures Shortfall(fat, last, dcc, n) == 0 && n <= Links(fat, last, dcc) && |Chosen(fat, last, dcc, n)| == n
  {
    hide Candidates;
  }

  /** With too few free clusters the write cannot be completed. */
  lemma TooFewClusters(g: Geometry, fat: seq<nat>, ch: seq<nat>, offset: nat, size: nat)
    requires g.spc > 0 && |fat| == g.dcc + 2 && ch != [] && size > 0
    ensures var last, need := ch[|ch| - 1], Missing(g, |ch|, offset + size);
            need > |Candidates(fat, last, g.dcc)| ==>
              Reach(512 * Sectors(g, ch + Chosen(fat, last, g.dcc, need)), offset, size) < size
  {
    var last, need := ch[|ch| - 1], Missing(g, |ch|, offset + size);
    var xs := Chosen(fat, last, g.dcc, need);
    if need > |Candidates(fat, last, g.dcc)| {
      assert |xs| == |Candidates(fat, last, g.dcc)|;
      assert |ch + xs| < CeilDiv(offset + size, 512 * g.spc);
      hide Candidates, Chosen, Missing, CeilDiv;
      TooShort(g, ch + xs, offset + size);
      hide Sectors;
    }
  }

  lemma TooShort(g: Geometry, ch: seq<nat>, t: nat)
    requires g.spc > 0 && |ch| < CeilDiv(t, 512 * g.spc)
    ensures 512 * Sectors(g, ch) < t
  {
    CeilDivLeast(t, 512 * g.spc, |ch|);
    hide CeilDiv;
    assert 512 * Sectors(g, ch) == |ch| * (512 * g.spc);
  }

  /** How many clusters a chain of `n` clusters lacks for `t` bytes. */
  function Missing(g: Geometry, n: nat, t: nat): nat
  {
    if g.spc == 0 || CeilDiv(t, 512 * g.spc) <= n then 0 else CeilDiv(t, 512 * g.spc) - n
  }

  lemma MeasuredClusters(g: Geometry, ch: seq<nat>, fileSize: nat)
    requires Measured(g, ch, fileSize)
    ensures fileSize <= |ch| * (512 * g.spc) < UINT32 && fileSize + 512 * g.spc <= UINT32
  {
    assert |ch| * (512 * g.spc) == 512 * (|ch| * g.spc);
  }

  lemma NotRequired(offset: nat, size: nat, fileSize: nat, hc: nat, cs: nat)
    requires cs > 0 && (offset + size) % UINT32 <= fileSize
    ensures RequiredCluster(offset, size, fileSize, hc, cs) == 0
  {
  }

  /** How much of `size` bytes at `offset` fits below `cap`. */
  function Reach(cap: nat, offset: nat, size: nat): nat {
    if offset + size <= cap then size else if offset < cap then cap - offset else 0
  }

  /** `bs` copied over `s` at `off`; nothing if `bs` is empty. */
  function Overlay<T>(s: seq<T>, off: nat, bs: seq<T>): (r: seq<T>)
    requires bs != [] ==> off + |bs| <= |s|
    ensures |r| == |s|
  {
    if bs == [] then s else Splice(s, off, bs)
  }

  /** Copying a string piece by piece. */
  lemma OverlayOn(s: seq<Byte>, off: nat, bs: seq<Byte>, w: nat, n: nat)
    requires n > 0 && w + n <= |bs| && off + w + n <= |s|
    ensures Splice(Overlay(s, off, bs[..w]), off + w, bs[w..w + n]) == Overlay(s, off, bs[..w + n])
  {
  }

  lemma NothingChanged(g: Geometry, ch: seq<nat>, disc: seq<Sector>)
    ensures OnlyChainChanged(g, ch, disc, disc)
  {
  }

  lemma SpliceAll(s: Sector, bytes: seq<Byte>)
    requires |bytes| == SECTOR_SIZE
    ensures Splice(s, 0, bytes) == bytes
  {
  }

  /** The request is cut at the end of the file, or need not be. */
  predicate Cuts(fileSize: nat, offset: nat, size: nat) {
    offset >= fileSize || size == 0 || offset + size < UINT32 || (offset + size) % UINT32 > fileSize
  }

  /** How much of a request the file can serve. */
  function ReadLength(fileSize: nat, offset: nat, size: nat): nat {
    if offset >= fileSize then 0 else if offset + size > fileSize then fileSize - offset else size
  }

  /** A buffer filled up to `n` and then further by `piece`. */
  lemma CopiedOn(buf: seq<Byte>, before: seq<Byte>, raw: seq<Byte>, offset: nat, n: nat, piece: seq<Byte>)
    requires n + |piece| <= |buf| == |before| && offset + n + |piece| <= |raw|
    requires n > 0 ==> buf[..n] == raw[offset..offset + n]
    requires buf[n..] == before[n..] && piece == raw[offset + n..offset + n + |piece|]
    ensures var buf' := Splice(buf, n, piece);
            && buf'[..n + |piece|] == raw[offset..offset + n + |piece|]
            && buf'[n + |piece|..] == before[n + |piece|..]
  {
    var buf' := Splice(buf, n, piece);
    assert forall i :: 0 <= i < |before| - n ==> buf[n..][i] == before[n..][i];
    forall i | n + |piece| <= i < |buf| ensures buf'[i] == before[i] {
      assert buf[n..][i - n] == before[n..][i - n];
    }
    forall i | 0 <= i < n ensures buf'[i] == raw[offset + i] {
      assert buf[..n][i] == raw[offset..offset + n][i];
    }
  }

  lemma NothingIn(g: Geometry, size: nat)
    requires Measured(g, [], size)
    ensures size == 0 && Sectors(g, []) == 0
  {
  }

  lemma PartOfFile(raw: seq<Byte>, size: nat, offset: nat, n: nat)
    requires offset + n <= size <= |raw|
    ensures raw[..size][offset..offset + n] == raw[offset..offset + n]
  {
  }

  lemma NoClusters(g: Geometry)
    ensures Sectors(g, []) == 0
  {
  }

  lemma SpcPositive(g: Geometry, count: nat)
    requires WellFormed(g, count)
    ensures g.spc > 0
  {
  }

  /** The chain covers the file, and both fit 32 bits. */
  ghost predicate Measured(g: Geometry, ch: seq<nat>, fileSize: nat) {
    && fileSize <= 512 * Sectors(g, ch) < UINT32
    && fileSize + 512 * g.spc <= UINT32
  }
}
