/** Finding by name what a session has created, and no longer finding what it has deleted. */
module Lookups {
  import opened Bytes
  import opened Geometries
  import opened FatEntries
  import opened Chains
  import opened FileData
  import opened Directories
  import opened Partitions
  import opened Slots
  import opened Fats
  import opened Files
  import opened FileOpen
  import opened Sizes
  import opened Runs
  import opened Volumes
  import opened Catalogs
  import opened VolumeModels
  import opened Sessions
  import opened Searches

  /** `ch` is the chain of a directory: on clusters that are used as such, its sectors all hold records. */
  ghost predicate DirectoryChain(g: Geometry, fat: seq<nat>, ch: seq<nat>, used: set<nat>, area: set<nat>) {
    && IsChain(g.fatType, fat, ch)
    && (forall i :: 0 <= i < |ch| ==> ch[i] in used)
    && (forall q :: 0 <= q < FileData.Sectors(g, ch) ==> SectorOf(g, ch, q) in area)
  }

  /** Place (q, i) comes before place (q', i'). */
  predicate Before(q: nat, i: nat, q': nat, i': nat) {
    q < q' || (q == q' && i < i')
  }

  /** Record `i` of the directory's sector `q` is found by that name. */
  ghost predicate NamedAt(g: Geometry, disc: seq<Sector>, ch: seq<nat>, name: FatName, q: nat, i: nat) {
    q < FileData.Sectors(g, ch) && SectorOf(g, ch, q) < |disc| && Hit(disc[SectorOf(g, ch, q)], i, Named(name))
  }

  /** A record that is the same byte for byte is found by the same names. */
  lemma SameHit(s: Sector, s': Sector, i: nat, what: Sought)
    requires i < 16 && s'[32 * i..32 * i + 32] == s[32 * i..32 * i + 32]
    ensures Hit(s', i, what) <==> Hit(s, i, what)
  {
    var a, b := s'[32 * i..32 * i + 32], s[32 * i..32 * i + 32];
    assert s'[32 * i] == a[0] && s[32 * i] == b[0] && s'[32 * i + 11] == a[11] && s[32 * i + 11] == b[11];
    assert s'[32 * i..32 * i + 11] == a[..11] && s[32 * i..32 * i + 11] == b[..11];
  }

  /** An operation on the record at `p` changes no other name in the directory. */
  lemma OtherNames(g: Geometry, disc: seq<Sector>, disc': seq<Sector>, ch: seq<nat>, used: set<nat>, area: set<nat>, fat: seq<nat>,
                   p: Place, name: FatName, q: nat, i: nat)
    requires DirectoryChain(g, fat, ch, used, area) && AreaKept(area, p, disc, disc') && q < FileData.Sectors(g, ch)
    requires SectorOf(g, ch, q) != p.sector || i != p.record
    ensures NamedAt(g, disc', ch, name, q, i) <==> NamedAt(g, disc, ch, name, q, i)
  {
    hide SectorOf, ChainFrom, FileData.Sectors;
    var s := SectorOf(g, ch, q);
    if i < 16 && s < |disc| && s == p.sector {
      OtherBytesOfRecord(disc[s], disc'[s], p.record, i);
      SameHit(disc[s], disc'[s], i, Named(name));
    }
    hide OtherRecords;
  }

  lemma OtherBytesOfRecord(s: Sector, s': Sector, i: nat, j: nat)
    requires OtherRecords(s, s', i) && j < 16 && j != i
    ensures s'[32 * j..32 * j + 32] == s[32 * j..32 * j + 32]
  {
    hide RecordCluster, RecordSize;
    SameRecord(s, s', i, j);
  }

  /** The directory's chain is still one. */
  lemma ChainKept(g: Geometry, fat: seq<nat>, fat': seq<nat>, ch: seq<nat>, used: set<nat>, area: set<nat>)
    requires DirectoryChain(g, fat, ch, used, area) && UsedKept(used, fat, fat')
    ensures DirectoryChain(g, fat', ch, used, area)
  {
    hide SectorOf, FileData.Sectors;
    assert forall i :: 0 <= i < |ch| ==> ch[i] in used;
    ChainFrame(g.fatType, fat, fat', ch);
  }

  /** Where a search of the directory ends if record `i` of sector `q` is the first of that name. */
  lemma SearchEnds(g: Geometry, count: nat, disc: seq<Sector>, fat: seq<nat>, ch: seq<nat>, name: FatName, q: nat, i: nat,
                   r: nat, found: nat, offset: nat)
    requires WellFormed(g, count) && |disc| == count && |fat| == g.dcc + 2 && IsChain(g.fatType, fat, ch)
    requires NamedAt(g, disc, ch, name, q, i)
    requires forall q', i' :: 0 <= q' <= q && 0 <= i' < 16 && Before(q', i', q, i) ==> !NamedAt(g, disc, ch, name, q', i')
    requires NoHits(g, disc, ch, if r == 0 then FileData.Sectors(g, ch) else found, Named(name))
    requires r != 0 ==> found < FileData.Sectors(g, ch) && FirstHit(disc, SectorOf(g, ch, found), offset, Named(name), r)
    ensures r != 0 && found == q && offset == i
  {
    HitBelow(g, disc, ch, name, q, i);
    if r != 0 { HitsBelow(disc, SectorOf(g, ch, found), offset, Named(name)); }
    hide SectorOf, ChainFrom, WellFormed, Hit, Answer, FileData.Sectors;
    assert r == 0 || found > q ==> NoHit(disc, SectorOf(g, ch, q), Named(name));
    assert r != 0 && found <= q;
    assert NamedAt(g, disc, ch, name, found, offset);
    assert found < q ==> Before(found, offset, q, i);
    assert found == q ==> !Before(found, offset, q, i);
  }

  lemma HitBelow(g: Geometry, disc: seq<Sector>, ch: seq<nat>, name: FatName, q: nat, i: nat)
    requires NamedAt(g, disc, ch, name, q, i)
    ensures i < 16
  {
  }

  lemma HitsBelow(disc: seq<Sector>, s: nat, i: nat, what: Sought)
    requires s < |disc| && Hit(disc[s], i, what)
    ensures i < 16
  {
  }

  // ---- a session and its lookups ----

  /** A search by the name of a file, whatever operations have been done to it, ends at its place and returns the first
      cluster of its chain, or 1 if it has none; unless an earlier record of the directory has the name. */
  method FindListed(s: Session, p: Place, name: FatName, first: nat, ghost ch: seq<nat>, ghost q: nat)
    returns (r: nat, sector: nat, offset: nat)
    requires s.Valid() && s.f.fs.part.Slack() >= Buffers(s.f.fs.g) && p in s.Model().files
    requires DirectoryChain(s.f.fs.g, s.f.fs.Table(), ch, s.used, s.area) && ch[0] == first
    requires q < FileData.Sectors(s.f.fs.g, ch) && p.sector == SectorOf(s.f.fs.g, ch, q)
    requires NamedAt(s.f.fs.g, s.f.fs.part.Disc(), ch, name, q, p.record)
    requires forall q', i' :: 0 <= q' <= q && 0 <= i' < 16 && Before(q', i', q, p.record) ==>
                                !NamedAt(s.f.fs.g, s.f.fs.part.Disc(), ch, name, q', i')
    modifies s.f.fs.part.io
    ensures s.f.fs.Untouched() && s.Valid() && s.Model() == old(s.Model())
    ensures sector == p.sector && offset == p.record
    ensures var ch := s.Model().files[p].chain; r == if ch == [] then 1 else ch[0]
  {
    hide CacheOk, Fat, Partition.Disc, Partition.Outside, Partition.Slack, FileSystem.Table, Partition.Ready, FileSystem.Around;
    hide WellFormed, ChainFrom, FileData.Sectors, SectorOf, Consistent, Contents, Free;
    hide DirectoryChain, NamedAt, NoHits, FirstHit, Hit, Fields;
    ghost var g, disc, fat := s.f.fs.g, s.f.fs.part.Disc(), s.f.fs.Table();
    s.RecordHolds(p);
    StillWellFormed(g, s.f.fs.part.count, disc, fat, s.dir, s.used, s.area);
    IsDirectoryChain(g, fat, ch, s.used, s.area);
    ghost var found;
    r, sector, offset, found := FindInDir(s.f.fs, first, Named(name), ch);
    SearchEnds(g, s.f.fs.part.count, disc, fat, ch, name, q, p.record, r, found, offset);
    ghost var i := s.Model().files[p];
    AnswerIs(disc, sector, offset, name, r, if i.chain == [] then 0 else i.chain[0], |i.content|);
  }

  lemma AnswerIs(disc: seq<Sector>, s: nat, i: nat, name: FatName, r: nat, c: nat, n: nat)
    requires s < |disc| && i < 16 && FirstHit(disc, s, i, Named(name), r) && Fields(disc[s], i, c, n)
    ensures r == if c == 0 then 1 else c
  {
  }

  /** After a file has been created, a search of its directory by its name ends at its place and returns its cluster, or 1 if
      there was none for it, if no earlier record has the name. */
  method CreateThenFind(s: Session, p: Place, name: FatName, first: nat, ghost ch: seq<nat>, ghost q: nat)
    returns (r: nat, sector: nat, offset: nat)
    requires s.Valid() && s.f.fs.part.Slack() >= Buffers(s.f.fs.g) && Enabled(s.f.fs.g, s.area, s.Model(), VolumeOp.Create(p, name))
    requires DirectoryChain(s.f.fs.g, s.f.fs.Table(), ch, s.used, s.area) && ch[0] == first
    requires q < FileData.Sectors(s.f.fs.g, ch) && p.sector == SectorOf(s.f.fs.g, ch, q)
    requires forall q', i' :: 0 <= q' <= q && 0 <= i' < 16 && Before(q', i', q, p.record) ==>
                                !NamedAt(s.f.fs.g, s.f.fs.part.Disc(), ch, name, q', i')
    modifies s`dir, s.f, s.f.cache, s.f.fs.part.io
    ensures s.Valid() && sector == p.sector && offset == p.record
    ensures p in s.Model().files && s.Model().files[p].content == []
    ensures var ch := s.Model().files[p].chain; r == if ch == [] then 1 else ch[0]
  {
    hide CacheOk, Fat, Partition.Disc, Partition.Outside, Partition.Slack, FileSystem.Table, Partition.Ready, FileSystem.Around;
    hide WellFormed, ChainFrom, FileData.Sectors, SectorOf, Consistent, Contents, Free, Created, WithSize, FirstFreeCluster;
    hide DirectoryChain, NamedAt, NoHits, FirstHit, AreaKept, UsedKept, Hit, NewFile, FirstOf;
    ghost var g, disc, fat := s.f.fs.g, s.f.fs.part.Disc(), s.f.fs.Table();
    s.CreateFile(p, name);
    ghost var disc', fat' := s.f.fs.part.Disc(), s.f.fs.Table();
    CreatedIsFound(disc[p.sector], p.record, name, FirstFreeCluster(fat, g.dcc), 0);
    StillWellFormed(g, s.f.fs.part.count, disc', fat', s.dir, s.used, s.area);
    SectorsDistinct(g, s.f.fs.part.count, fat, ch, s.used, s.area);
    CreatedNamed(g, disc, disc', ch, s.used, s.area, fat, p, name, q);
    ChainKept(g, fat, fat', ch, s.used, s.area);
    r, sector, offset := FindListed(s, p, name, first, ch, q);
  }

  /** After any calls on a file, opened for appending and closed, it is still found by its name, and with its cluster: the
      first it has got by then. */
  method EditThenFind(s: Session, p: Place, ops: seq<FileOp>, ghost limit: nat, name: FatName, first: nat,
                      ghost ch: seq<nat>, ghost q: nat)
    returns (r: nat, sector: nat, offset: nat)
    requires s.Valid() && s.f.fs.part.Slack() >= Buffers(s.f.fs.g) + 1 && Enabled(s.f.fs.g, s.area, s.Model(), Edit(p, ops, limit))
    requires DirectoryChain(s.f.fs.g, s.f.fs.Table(), ch, s.used, s.area) && ch[0] == first
    requires q < FileData.Sectors(s.f.fs.g, ch) && p.sector == SectorOf(s.f.fs.g, ch, q)
    requires NamedAt(s.f.fs.g, s.f.fs.part.Disc(), ch, name, q, p.record)
    requires forall q', i' :: 0 <= q' <= q && 0 <= i' < 16 && Before(q', i', q, p.record) ==>
                                !NamedAt(s.f.fs.g, s.f.fs.part.Disc(), ch, name, q', i')
    modifies s`dir, s.f, s.f.cache, s.f.fs.part.io, s.f.fs`freeClusterCount
    ensures s.Valid() && s.Model() == VolumeStep(s.f.fs.g, old(s.Model()), Edit(p, ops, limit)).0
    ensures sector == p.sector && offset == p.record
    ensures p in s.Model().files && s.Model().files[p].chain != [] && r == s.Model().files[p].chain[0]
  {
    hide CacheOk, Fat, Partition.Disc, Partition.Outside, Partition.Slack, FileSystem.Table, Partition.Ready, FileSystem.Around;
    hide WellFormed, ChainFrom, FileData.Sectors, SectorOf, Consistent, Contents, Free, Edited, Adopted, Missing, NextOf, AllAllowed;
    hide DirectoryChain, NamedAt, NoHits, FirstHit, AreaKept, UsedKept, Hit, NamePart, FirstOf;
    ghost var g, disc, fat := s.f.fs.g, s.f.fs.part.Disc(), s.f.fs.Table();
    NamedHit(g, disc, ch, name, q, p.record);
    StillListed(g, s.Model(), p, ops);
    var outs := s.EditFile(p, ops, limit);
    ghost var disc', fat' := s.f.fs.part.Disc(), s.f.fs.Table();
    KeptName(disc[p.sector], disc'[p.sector], p.record, name);
    StillWellFormed(g, s.f.fs.part.count, disc', fat', s.dir, s.used, s.area);
    SectorsDistinct(g, s.f.fs.part.count, fat, ch, s.used, s.area);
    CreatedNamed(g, disc, disc', ch, s.used, s.area, fat, p, name, q);
    ChainKept(g, fat, fat', ch, s.used, s.area);
    r, sector, offset := FindListed(s, p, name, first, ch, q);
  }

  lemma KeptName(s: Sector, s': Sector, i: nat, name: FatName)
    requires i < 16 && Hit(s, i, Named(name)) && NamePart(s', i) == NamePart(s, i)
    ensures Hit(s', i, Named(name))
  {
    var a, b := NamePart(s, i), NamePart(s', i);
    assert s[32 * i..32 * i + 11] == a[..11] && s'[32 * i..32 * i + 11] == b[..11];
    assert s[32 * i + 11] == a[11] && s'[32 * i + 11] == b[11];
  }

  /** An edit leaves the file with clusters if it had some or has got its first. */
  lemma StillListed(g: Geometry, m: Model, p: Place, ops: seq<FileOp>)
    requires p in m.files
    ensures var m1, m2 := Adopted(g, m, p), VolumeStep(g, m, Edit(p, ops, 0)).0;
            && p in m1.files && p in m2.files
            && (m1.files[p].chain != [] ==> m2.files[p].chain != [])
  {
    hide FirstOf, NextOf, CeilDiv;
  }

  lemma IsDirectoryChain(g: Geometry, fat: seq<nat>, ch: seq<nat>, used: set<nat>, area: set<nat>)
    requires DirectoryChain(g, fat, ch, used, area)
    ensures IsChain(g.fatType, fat, ch) && ch != []
  {
  }

  lemma StillWellFormed(g: Geometry, count: nat, disc: seq<Sector>, fat: seq<nat>, dir: map<Place, seq<nat>>,
                        used: set<nat>, area: set<nat>)
    requires Consistent(g, count, disc, fat, dir, used, area)
    ensures WellFormed(g, count) && |disc| == count && |fat| == g.dcc + 2 && Numbered(g.fatType, fat)
  {
  }

  lemma CreatedNamed(g: Geometry, disc: seq<Sector>, disc': seq<Sector>, ch: seq<nat>, used: set<nat>, area: set<nat>,
                     fat: seq<nat>, p: Place, name: FatName, q: nat)
    requires DirectoryChain(g, fat, ch, used, area) && AreaKept(area, p, disc, disc') && q < FileData.Sectors(g, ch)
    requires p.sector == SectorOf(g, ch, q) < |disc'| && Hit(disc'[p.sector], p.record, Named(name))
    requires DistinctSectors(g, ch)
    requires forall q', i' :: 0 <= q' <= q && 0 <= i' < 16 && Before(q', i', q, p.record) ==> !NamedAt(g, disc, ch, name, q', i')
    ensures NamedAt(g, disc', ch, name, q, p.record)
    ensures forall q', i' :: 0 <= q' <= q && 0 <= i' < 16 && Before(q', i', q, p.record) ==> !NamedAt(g, disc', ch, name, q', i')
  {
    hide DirectoryChain, AreaKept, Hit, SectorOf, FileData.Sectors;
    forall q', i' | 0 <= q' <= q && 0 <= i' < 16 && Before(q', i', q, p.record) ensures !NamedAt(g, disc', ch, name, q', i') {
      OtherNames(g, disc, disc', ch, used, area, fat, p, name, q', i');
    }
  }

  /** No two sectors of a directory are the same sector of the disc. */
  ghost predicate DistinctSectors(g: Geometry, ch: seq<nat>) {
    forall q, q' :: 0 <= q < FileData.Sectors(g, ch) && 0 <= q' < FileData.Sectors(g, ch) && q != q' ==>
                      SectorOf(g, ch, q) != SectorOf(g, ch, q')
  }

  lemma SectorsDistinct(g: Geometry, count: nat, fat: seq<nat>, ch: seq<nat>, used: set<nat>, area: set<nat>)
    requires WellFormed(g, count) && |fat| == g.dcc + 2 && Numbered(g.fatType, fat) && DirectoryChain(g, fat, ch, used, area)
    ensures DistinctSectors(g, ch)
  {
    ChainIsData(g, fat, ch);
    ChainDistinct(g.fatType, fat, ch);
    hide WellFormed, SectorOf, FileData.Sectors, DataClusters, Distinct, ChainFrom;
    forall q, q' | 0 <= q < FileData.Sectors(g, ch) && 0 <= q' < FileData.Sectors(g, ch) && q != q'
      ensures SectorOf(g, ch, q) != SectorOf(g, ch, q')
    {
      SectorsDiffer(g, count, ch, q, q');
    }
  }

  /** After a file has been deleted, a search of its directory by its name ends nowhere, if no other record has the name.
      A name that begins with the mark of deleted files is the exception. */
  method DeleteThenFind(s: Session, p: Place, name: FatName, first: nat, ghost ch: seq<nat>, ghost q: nat)
    returns (r: nat, sector: nat, offset: nat)
    requires s.Valid() && s.f.fs.part.Slack() >= Buffers(s.f.fs.g) && Enabled(s.f.fs.g, s.area, s.Model(), Delete(p))
    requires DirectoryChain(s.f.fs.g, s.f.fs.Table(), ch, s.used, s.area) && ch[0] == first
    requires q < FileData.Sectors(s.f.fs.g, ch) && p.sector == SectorOf(s.f.fs.g, ch, q)
    requires NamedAt(s.f.fs.g, s.f.fs.part.Disc(), ch, name, q, p.record) && name[0] != 0xE5
    requires forall q', i' :: 0 <= q' < FileData.Sectors(s.f.fs.g, ch) && 0 <= i' < 16 && (q' != q || i' != p.record) ==>
                                !NamedAt(s.f.fs.g, s.f.fs.part.Disc(), ch, name, q', i')
    modifies s`dir, s.f.fs.part.io, s.f.fs`freeClusterCount
    ensures s.Valid() && r == 0
  {
    hide CacheOk, Fat, Partition.Disc, Partition.Outside, Partition.Slack, FileSystem.Table, Partition.Ready, FileSystem.Around;
    hide WellFormed, ChainFrom, FileData.Sectors, SectorOf, Consistent, Contents, Free, VolumeStep, Splice;
    hide DirectoryChain, NamedAt, NoHits, FirstHit, AreaKept, UsedKept, Hit;
    ghost var g, disc, fat := s.f.fs.g, s.f.fs.part.Disc(), s.f.fs.Table();
    StillWellFormed(g, s.f.fs.part.count, disc, fat, s.dir, s.used, s.area);
    NamedHit(g, disc, ch, name, q, p.record);
    s.DeleteFile(p);
    ghost var disc', fat' := s.f.fs.part.Disc(), s.f.fs.Table();
    RemovedIsFree(disc[p.sector], p.record, name);
    SectorsDistinct(g, s.f.fs.part.count, fat, ch, s.used, s.area);
    DeletedUnnamed(g, disc, disc', ch, s.used, s.area, fat, p, name, q);
    ChainKept(g, fat, fat', ch, s.used, s.area);
    IsDirectoryChain(g, fat', ch, s.used, s.area);
    ghost var found;
    r, sector, offset, found := FindInDir(s.f.fs, first, Named(name), ch);
    if r != 0 { HitIsNamed(g, disc', ch, name, found, offset, r); }
  }

  lemma NamedHit(g: Geometry, disc: seq<Sector>, ch: seq<nat>, name: FatName, q: nat, i: nat)
    requires NamedAt(g, disc, ch, name, q, i)
    ensures SectorOf(g, ch, q) < |disc| && Hit(disc[SectorOf(g, ch, q)], i, Named(name))
  {
  }

  lemma HitIsNamed(g: Geometry, disc: seq<Sector>, ch: seq<nat>, name: FatName, q: nat, i: nat, r: nat)
    requires q < FileData.Sectors(g, ch) && FirstHit(disc, SectorOf(g, ch, q), i, Named(name), r)
    ensures i < 16 && NamedAt(g, disc, ch, name, q, i)
  {
    hide SectorOf, FileData.Sectors;
  }

  lemma DeletedUnnamed(g: Geometry, disc: seq<Sector>, disc': seq<Sector>, ch: seq<nat>, used: set<nat>, area: set<nat>,
                       fat: seq<nat>, p: Place, name: FatName, q: nat)
    requires DirectoryChain(g, fat, ch, used, area) && AreaKept(area, p, disc, disc') && q < FileData.Sectors(g, ch)
    requires p.sector == SectorOf(g, ch, q) < |disc'| && !Hit(disc'[p.sector], p.record, Named(name)) && DistinctSectors(g, ch)
    requires forall q', i' :: 0 <= q' < FileData.Sectors(g, ch) && 0 <= i' < 16 && (q' != q || i' != p.record) ==>
                                !NamedAt(g, disc, ch, name, q', i')
    ensures forall q', i' :: 0 <= q' < FileData.Sectors(g, ch) && 0 <= i' < 16 ==> !NamedAt(g, disc', ch, name, q', i')
  {
    hide DirectoryChain, AreaKept, Hit, SectorOf, FileData.Sectors;
    forall q', i' | 0 <= q' < FileData.Sectors(g, ch) && 0 <= i' < 16 ensures !NamedAt(g, disc', ch, name, q', i') {
      if q' != q || i' != p.record { OtherNames(g, disc, disc', ch, used, area, fat, p, name, q', i'); }
    }
  }
}
