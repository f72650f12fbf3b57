/** Opening an existing file, closing and deleting one, once its directory entry has been found. */
module FileOpen {
  import opened Bytes
  import opened Geometries
  import opened FatEntries
  import opened Chains
  import opened FileData
  import opened Directories
  import opened Partitions
  import opened Slots
  import opened Fats
  import opened Files

  /** Record `i` of directory sector `s` belongs to a file with clusters `ch`. */
  ghost predicate Names(g: Geometry, fat: seq<nat>, s: Sector, i: nat, ch: seq<nat>) {
    && i < 16
    && RecordCluster(s, i) == (if ch == [] then 0 else ch[0])
    && (ch != [] ==> IsChain(g.fatType, fat, ch))
    && Measured(g, ch, RecordSize(s, i))
  }

  /** dir_getFileStructure and file_initFile: size and first cluster from the directory, position at the start. */
  method InitFile(f: File, sector: nat, offset: nat, ghost ch: seq<nat>)
    requires f.fs.Ok() && f.fs.part.Slack() >= 1 && sector < f.fs.part.count && offset < 16
    requires Names(f.fs.g, f.fs.Table(), f.fs.part.Disc()[sector], offset, ch)
    modifies f.fs.part.io, f.cache, f`filePtr, f`fileSize, f`locSector, f`locOffset, f`chain
    ensures f.fs.Untouched() && f.Valid() && f.chain == ch
    ensures f.fileSize == RecordSize(f.fs.part.Disc()[sector], offset) && f.filePtr == 0
    ensures f.locSector == sector && f.locOffset == offset
    ensures f.cache.clusterCount == old(f.cache.clusterCount)
    ensures f.cache.firstCluster == RecordCluster(f.fs.part.Disc()[sector], offset)
    ensures Fields(f.fs.part.Disc()[sector], offset, f.cache.firstCluster, f.fileSize)
  {
    hide Partition.Disc, Partition.Outside, Partition.Slack, FileSystem.Table, FileSystem.Ok, FileSystem.Around;
    hide ChainFrom, Measured, RecordCluster, RecordSize, ClusterChain.Tracks, Fields;
    var rec := f.fs.PeekSector(sector);
    RecordFields(rec, offset);
    f.fileSize, f.filePtr, f.locSector, f.locOffset := RecordSize(rec, offset), 0, sector, offset;
    f.cache.Place(RecordCluster(rec, offset));
    f.chain := ch;
    f.cache.Begins(ch);
  }

  /** The MODE_READ branch of file_fopen. */
  method OpenRead(f: File, sector: nat, offset: nat, ghost ch: seq<nat>)
    requires f.fs.Ok() && f.fs.part.Slack() >= 1 && sector < f.fs.part.count && offset < 16
    requires Names(f.fs.g, f.fs.Table(), f.fs.part.Disc()[sector], offset, ch)
    modifies f.fs.part.io, f.cache, f
    ensures f.fs.Untouched() && f.Valid() && f.chain == ch
    ensures f.fileSize == RecordSize(f.fs.part.Disc()[sector], offset) && f.filePtr == 0
    ensures f.locSector == sector && f.locOffset == offset && f.isOpen && !f.canWrite
    ensures f.cache.clusterCount == old(f.cache.clusterCount)
    ensures Fields(f.fs.part.Disc()[sector], offset, f.cache.firstCluster, f.fileSize)
  {
    hide Partition.Disc, Partition.Outside, Partition.Slack, FileSystem.Table, FileSystem.Ok, FileSystem.Around;
    hide Names, ChainFrom, Measured, RecordCluster, RecordSize, ClusterChain.Tracks, Fields;
    InitFile(f, sector, offset, ch);
    f.isOpen, f.canWrite := true, false;
  }

  /** The MODE_APPEND branch of file_fopen for an existing file: positioned at the end, open for writing. A file without
      clusters gets the first free one. */
  method OpenAppend(f: File, sector: nat, offset: nat, ghost ch: seq<nat>)
    requires f.fs.Ok() && f.fs.part.Slack() >= 1 && sector < f.fs.part.count && offset < 16
    requires Names(f.fs.g, f.fs.Table(), f.fs.part.Disc()[sector], offset, ch)
    requires ch == [] ==> f.fs.IsData(sector) && f.fs.part.Slack() >= Buffers(f.fs.g)
    modifies f.fs.part.io, f.cache, f
    ensures f.Valid() && f.filePtr == f.fileSize == RecordSize(old(f.fs.part.Disc()[sector]), offset)
    ensures f.locSector == sector && f.locOffset == offset && f.isOpen && f.canWrite
    ensures f.cache.clusterCount == old(f.cache.clusterCount)
    ensures ch != [] ==> f.fs.Untouched() && f.chain == ch
    ensures Fields(old(f.fs.part.Disc()[sector]), offset, if ch == [] then 0 else ch[0], f.fileSize)
    ensures ch == [] ==>
              && FirstTaken(f.fs.g, old(f.fs.Table()), old(f.fs.part.Disc()), sector, offset, f.chain, f.fs.Table(), f.fs.part.Disc())
              && f.fs.part.Outside() == old(f.fs.part.Outside()) && f.fs.part.io.held == old(f.fs.part.io.held)
              && f.fs.part.Slack() == old(f.fs.part.Slack())
  {
    hide CacheOk, Fat, Partition.Disc, Partition.Outside, Partition.Slack, FileSystem.Table, Partition.Ready, WellFormed, Rest;
    hide ChainFrom, Measured, RecordCluster, RecordSize, ClusterChain.Tracks, Apart, FirstTaken, Fields;
    if ch != [] { FirstInRange(f.fs.g.fatType, f.fs.Table(), ch, 0); }
    InitFile(f, sector, offset, ch);
    if f.cache.firstCluster == 0 {
      TakeFirst(f, sector, offset);
    }
    var r := f.SetPos(f.fileSize);
    f.isOpen, f.canWrite := true, true;
  }

  /** A file has got the first free cluster as its chain, in the FAT and in its directory record; there may be none. */
  ghost predicate FirstTaken(g: Geometry, fat: seq<nat>, disc: seq<Sector>, sector: nat, offset: nat,
                             ch: seq<nat>, fat': seq<nat>, disc': seq<Sector>) {
    && g.dcc <= |fat| && g.reserved + g.fatSectors <= |disc| == |disc'| && sector < |disc| && offset < 16
    && var c := FirstFreeCluster(fat, g.dcc);
    && c < |fat| && fat' == fat[c := GiveEoc(g.fatType)] && ch == (if c == 0 then [] else [c])
    && Rest(g, disc') == Rest(g, disc[sector := WithCluster(disc[sector], offset, c)])
    && HoldsCluster(disc[sector], disc'[sector], offset, c)
  }

  method TakeFirst(f: File, sector: nat, offset: nat)
    requires f.Valid() && f.chain == [] && f.fs.IsData(sector) && offset < 16 && f.fs.part.Slack() >= Buffers(f.fs.g)
    modifies f.fs.part.io, f.cache, f`chain
    ensures f.Valid() && f.cache.clusterCount == old(f.cache.clusterCount)
    ensures FirstTaken(f.fs.g, old(f.fs.Table()), old(f.fs.part.Disc()), sector, offset, f.chain, f.fs.Table(), f.fs.part.Disc())
    ensures f.fs.part.Outside() == old(f.fs.part.Outside()) && f.fs.part.io.held == old(f.fs.part.io.held)
    ensures f.fs.part.Slack() == old(f.fs.part.Slack())
  {
    hide CacheOk, Fat, Partition.Disc, Partition.Outside, Partition.Slack, FileSystem.Table, Partition.Ready;
    hide WellFormed, ChainFrom, FirstFreeCluster, WithCluster, HoldsCluster, Rest, Numbered, ClusterChain.Tracks, Sectors;
    FirstFreeFacts(f.fs.g, f.fs.Table());
    CreatedMeasured(f.fs.g, f.fs.part.count, FirstFreeCluster(f.fs.Table(), f.fs.g.dcc));
    NoClusters(f.fs.g);
    f.fs.Facts();
    ghost var disc := f.fs.part.Disc();
    var sec := f.fs.GetNextFreeCluster(2);
    First(f.fs.Table(), f.fs.g.dcc);
    f.fs.SetFirstCluster(sector, offset, sec);
    f.fs.SetNextClusterAddress(sec, GiveEoc(f.fs.g.fatType));
    f.cache.Place(sec);
    f.chain := if sec == 0 then [] else [sec];
    f.cache.Begins(f.chain);
    RestSector(f.fs.g, disc, f.fs.part.Disc(), sector, WithCluster(disc[sector], offset, sec));
    ClusterBytes(disc[sector], offset, sec);
  }

  lemma First(fat: seq<nat>, dcc: nat)
    requires dcc <= |fat|
    ensures FirstFreeCluster(fat, dcc) == (var xs := FreeIn(fat, 2, dcc); if xs == [] then 0 else xs[0])
  {
  }

  /** file_fclose: the size of a file open for writing goes to its directory entry; the object is cleared. */
  method Close(f: File)
    requires f.Valid() && (f.canWrite ==> f.Placed() && f.fs.part.Slack() >= 1)
    modifies f.fs.part.io, f.cache, f
    ensures f.fs.Ok() && f.fs.part.Slack() == old(f.fs.part.Slack())
    ensures !old(f.canWrite) ==> f.fs.Untouched()
    ensures old(f.canWrite) ==> f.fs.Wrote(old(f.locSector), WithSize(old(f.fs.part.Disc()[f.locSector]), old(f.locOffset), old(f.fileSize)))
    ensures old(f.canWrite) ==>
              HoldsSize(old(f.fs.part.Disc()[f.locSector]), f.fs.part.Disc()[old(f.locSector)], old(f.locOffset), old(f.fileSize))
    ensures ChainBytes(f.fs.g, f.fs.part.Disc(), old(f.chain)) == old(f.Raw())
    ensures !f.isOpen && !f.canWrite && f.filePtr == f.fileSize == f.locSector == f.locOffset == 0 && f.chain == []
    ensures f.cache.clusterCount == f.cache.firstCluster == f.cache.lastCluster == 0
    ensures f.cache.discCluster == f.cache.logicCluster == f.cache.linear == 0
  {
    hide Partition.Disc, Partition.Outside, Partition.Slack, FileSystem.Table, FileSystem.Ok, FileSystem.Around;
    hide ChainFrom, Measured, ClusterChain.Tracks, ChainBytes, WithSize, HoldsSize, Apart;
    if f.canWrite {
      f.SetFileSize(f.fileSize);
    }
    f.cache.Init(0);
    f.filePtr, f.fileSize, f.locSector, f.locOffset, f.chain := 0, 0, 0, 0, [];
    f.isOpen, f.canWrite := false, false;
  }

  /** rmfile: the directory record is marked and the file's clusters are freed. */
  method Remove(fs: FileSystem, sector: nat, offset: nat, ghost ch: seq<nat>)
    requires fs.Ok() && fs.part.Slack() >= Buffers(fs.g) && fs.IsData(sector)
    requires Names(fs.g, fs.Table(), fs.part.Disc()[sector], offset, ch)
    modifies fs.part.io, fs`freeClusterCount
    ensures fs.Ok() && fs.Table() == Cleared(old(fs.Table()), Visited(ch))
    ensures Rest(fs.g, fs.part.Disc())
         == Rest(fs.g, old(fs.part.Disc())[sector := Splice(old(fs.part.Disc()[sector]), 32 * offset, [DELETED])])
    ensures Erased(old(fs.part.Disc()[sector]), fs.part.Disc()[sector], offset)
    ensures fs.part.Outside() == old(fs.part.Outside()) && fs.part.io.held == old(fs.part.io.held)
    ensures fs.part.Slack() == old(fs.part.Slack())
  {
    hide Partition.Disc, Partition.Outside, Partition.Slack, FileSystem.Table, Fat, WellFormed, CacheOk, Partition.Ready;
    hide ChainFrom, Measured, RecordCluster, RecordSize, Splice, Cleared, Rest, Erased;
    ghost var disc := fs.part.Disc();
    if ch != [] { FirstInRange(fs.g.fatType, fs.Table(), ch, 0); RunStart(ch, 0); }
    var first := fs.MarkDeleted(sector, offset);
    var cache := new ClusterChain.Unplaced(first, ch);
    fs.UnlinkClusterChain(cache, ch);
    RestSector(fs.g, disc, fs.part.Disc(), sector, Splice(disc[sector], 32 * offset, [DELETED]));
    ErasedBytes(disc[sector], offset);
  }
}
