/** The files of a volume as its directory records list them, and what changes when one of them changes. */
module Catalogs {
  import opened Bytes
  import opened Geometries
  import opened Chains
  import opened FileData
  import opened Directories
  import opened Fats
  import opened Files
  import opened FileOpen
  import opened Runs
  import opened Volumes

  /** The sectors that hold directory records lie behind the first FAT and in no cluster but the `used` ones. */
  ghost predicate DirectoryArea(g: Geometry, count: nat, used: set<nat>, area: set<nat>) {
    forall s :: s in area ==>
                  && g.reserved + g.fatSectors <= s < count
                  && (forall c :: 2 <= c < g.dcc + 2 && c !in used ==> !InCluster(g, c, s))
  }

  /** Every file has a record that names its chain and its size. */
  ghost predicate Listed(g: Geometry, disc: seq<Sector>, fat: seq<nat>, dir: map<Place, seq<nat>>, area: set<nat>) {
    forall p :: p in dir ==> p.sector in area && p.sector < |disc| && Names(g, fat, disc[p.sector], p.record, dir[p])
  }

  /** The bytes of the file at `p`. */
  ghost function FileBytes(g: Geometry, disc: seq<Sector>, p: Place, ch: seq<nat>): seq<Byte> {
    if p.sector < |disc| && p.record < 16 && RecordSize(disc[p.sector], p.record) <= 512 * Sectors(g, ch)
    then ChainBytes(g, disc, ch)[..RecordSize(disc[p.sector], p.record)]
    else []
  }

  /** What a file holds, and its clusters. */
  datatype FileInfo = FileInfo(content: seq<Byte>, chain: seq<nat>)

  ghost function Contents(g: Geometry, disc: seq<Sector>, dir: map<Place, seq<nat>>): map<Place, FileInfo> {
    map p | p in dir :: FileInfo(FileBytes(g, disc, p, dir[p]), dir[p])
  }

  /** Nothing has changed but the first FAT, the sectors of `ch` and the record at `p`. */
  ghost predicate Touched(g: Geometry, ch: seq<nat>, p: Place, disc: seq<Sector>, disc': seq<Sector>) {
    && |disc'| == |disc| && p.sector < |disc| && p.record < 16
    && (forall s :: 0 <= s < |disc| && disc'[s] != disc[s] && s != p.sector ==>
                      g.reserved <= s < g.reserved + g.fatSectors || OnChain(g, ch, s))
    && OtherRecords(disc[p.sector], disc'[p.sector], p.record)
  }

  /** Directory sectors are not on files' chains. */
  lemma AreaOffChain(g: Geometry, count: nat, used: set<nat>, area: set<nat>, ch: seq<nat>, s: nat)
    requires WellFormed(g, count) && DirectoryArea(g, count, used, area) && s in area && DataClusters(g, ch)
    requires forall i :: 0 <= i < |ch| ==> ch[i] !in used
    ensures !OnChain(g, ch, s)
  {
    hide WellFormed, ClusterToSector, Sectors;
    forall q | 0 <= q < Sectors(g, ch) ensures SectorOf(g, ch, q) != s {
      var c, k := Locate(g, count, ch, q);
      assert !InCluster(g, ch[c], s);
    }
  }

  /** ... and apart from all clusters that files have or can get. */
  lemma AreaApart(g: Geometry, count: nat, fat: seq<nat>, dir: map<Place, seq<nat>>, used: set<nat>, area: set<nat>, ch: seq<nat>, s: nat)
    requires DirectoryArea(g, count, used, area) && s in area && |fat| == g.dcc + 2 && Sound(g.fatType, fat, dir, used)
    requires forall i :: 0 <= i < |ch| ==> ch[i] !in used
    ensures Apart(g, fat, ch, s) && g.reserved + g.fatSectors <= s < count
  {
    hide InCluster, IsChain;
    forall c | 2 <= c < |fat| && (c in ch || fat[c] == 0) ensures !InCluster(g, c, s) {
      assert c !in used;
    }
  }

  /** A sector of another file does not change. */
  lemma OtherSector(g: Geometry, count: nat, used: set<nat>, area: set<nat>, ch: seq<nat>, p: Place,
                    disc: seq<Sector>, disc': seq<Sector>, other: seq<nat>, q: nat)
    requires WellFormed(g, count) && |disc'| == |disc| == count && DirectoryArea(g, count, used, area) && p.sector in area
    requires Touched(g, ch, p, disc, disc') && DataClusters(g, ch) && DataClusters(g, other)
    requires Separate(other, ch) && (forall i :: 0 <= i < |other| ==> other[i] !in used)
    requires q < Sectors(g, other)
    ensures SectorOf(g, other, q) < count && disc'[SectorOf(g, other, q)] == disc[SectorOf(g, other, q)]
  {
    AreaOffChain(g, count, used, area, other, p.sector);
    ChainsApart(g, count, ch, other, q);
    SectorOnDisc(g, count, other, q);
    hide WellFormed, Sectors, SectorOf, DirectoryArea;
  }

  lemma OtherBytes(g: Geometry, count: nat, used: set<nat>, area: set<nat>, ch: seq<nat>, p: Place,
                   disc: seq<Sector>, disc': seq<Sector>, other: seq<nat>)
    requires WellFormed(g, count) && |disc'| == |disc| == count && DirectoryArea(g, count, used, area) && p.sector in area
    requires Touched(g, ch, p, disc, disc') && DataClusters(g, ch) && DataClusters(g, other)
    requires Separate(other, ch) && (forall i :: 0 <= i < |other| ==> other[i] !in used)
    ensures ChainBytes(g, disc', other) == ChainBytes(g, disc, other)
  {
    hide WellFormed, Sectors, SectorOf, DirectoryArea, Touched, Separate, DataClusters;
    forall i | 0 <= i < 512 * Sectors(g, other)
      ensures ByteAt(disc', SectorOf(g, other, i / 512), i % 512) == ByteAt(disc, SectorOf(g, other, i / 512), i % 512)
    {
      OtherSector(g, count, used, area, ch, p, disc, disc', other, i / 512);
    }
  }

  /** Another record does not change. */
  lemma OtherRecord(g: Geometry, count: nat, used: set<nat>, area: set<nat>, ch: seq<nat>, p: Place,
                    disc: seq<Sector>, disc': seq<Sector>, q: Place)
    requires WellFormed(g, count) && |disc'| == |disc| == count && DirectoryArea(g, count, used, area)
    requires Touched(g, ch, p, disc, disc') && DataClusters(g, ch) && (forall i :: 0 <= i < |ch| ==> ch[i] !in used)
    requires q != p && q.sector in area && q.record < 16
    ensures q.sector < count
    ensures disc'[q.sector][32 * q.record..32 * q.record + 32] == disc[q.sector][32 * q.record..32 * q.record + 32]
    ensures RecordCluster(disc'[q.sector], q.record) == RecordCluster(disc[q.sector], q.record)
    ensures RecordSize(disc'[q.sector], q.record) == RecordSize(disc[q.sector], q.record)
  {
    AreaOffChain(g, count, used, area, ch, q.sector);
    hide WellFormed, OnChain, RecordCluster, RecordSize, InCluster, OtherRecords;
    if q.sector == p.sector { SameRecord(disc[p.sector], disc'[p.sector], p.record, q.record); }
  }

  /** A volume whose chains are sound and whose directory lists them. */
  ghost predicate Consistent(g: Geometry, count: nat, disc: seq<Sector>, fat: seq<nat>, dir: map<Place, seq<nat>>,
                             used: set<nat>, area: set<nat>) {
    && WellFormed(g, count) && |disc| == count && |fat| == g.dcc + 2
    && Sound(g.fatType, fat, dir, used) && DirectoryArea(g, count, used, area) && Listed(g, disc, fat, dir, area)
  }

  lemma SoundData(g: Geometry, fat: seq<nat>, dir: map<Place, seq<nat>>, used: set<nat>, p: Place)
    requires Sound(g.fatType, fat, dir, used) && |fat| == g.dcc + 2 && p in dir
    ensures DataClusters(g, dir[p]) && forall i :: 0 <= i < |dir[p]| ==> dir[p][i] !in used
  {
    SoundFile(g.fatType, fat, dir, used, p);
  }

  /** What a change to one file leaves of another. */
  lemma OtherFile(g: Geometry, count: nat, disc: seq<Sector>, fat: seq<nat>, dir: map<Place, seq<nat>>, used: set<nat>,
                  area: set<nat>, p: Place, ch: seq<nat>, disc': seq<Sector>, fat': seq<nat>, q: Place)
    requires Consistent(g, count, disc, fat, dir, used, area) && q in dir && q != p && p.sector in area
    requires Touched(g, ch, p, disc, disc') && DataClusters(g, ch) && (forall i :: 0 <= i < |ch| ==> ch[i] !in used)
    requires Separate(dir[q], ch) && (dir[q] != [] ==> IsChain(g.fatType, fat', dir[q]))
    ensures q.sector < |disc'| && Names(g, fat', disc'[q.sector], q.record, dir[q])
    ensures FileBytes(g, disc', q, dir[q]) == FileBytes(g, disc, q, dir[q])
  {
    SoundData(g, fat, dir, used, q);
    OtherRecord(g, count, used, area, ch, p, disc, disc', q);
    OtherBytes(g, count, used, area, ch, p, disc, disc', dir[q]);
    hide WellFormed, Sound, DirectoryArea, Touched, RecordCluster, RecordSize, ChainBytes, Separate, DataClusters, ChainFrom, Measured;
  }

  /** The listing after a change to file `p`, once that is known of every other file and of `p` itself. */
  lemma Relisted(g: Geometry, disc: seq<Sector>, dir: map<Place, seq<nat>>, area: set<nat>,
                 disc': seq<Sector>, fat': seq<nat>, dir': map<Place, seq<nat>>, p: Place)
    requires forall q :: q in dir' && q != p ==>
                           && q in dir && dir'[q] == dir[q] && q.sector in area && q.sector < |disc'|
                           && Names(g, fat', disc'[q.sector], q.record, dir'[q])
                           && FileBytes(g, disc', q, dir[q]) == FileBytes(g, disc, q, dir[q])
    requires forall q :: q in dir && q != p ==> q in dir'
    requires p in dir' ==> p.sector in area && p.sector < |disc'| && Names(g, fat', disc'[p.sector], p.record, dir'[p])
    ensures Listed(g, disc', fat', dir', area)
    ensures p in dir' ==> Contents(g, disc', dir') == Contents(g, disc, dir)[p := FileInfo(FileBytes(g, disc', p, dir'[p]), dir'[p])]
    ensures p !in dir' ==> Contents(g, disc', dir') == Contents(g, disc, dir) - {p}
  {
    hide Names, FileBytes;
  }

  /** A file has been created or has grown: the volume is consistent again and no other file has changed. */
  lemma Updated(g: Geometry, count: nat, disc: seq<Sector>, fat: seq<nat>, dir: map<Place, seq<nat>>, used: set<nat>,
                area: set<nat>, p: Place, disc': seq<Sector>, fat': seq<nat>, ch': seq<nat>)
    requires Consistent(g, count, disc, fat, dir, used, area) && p.sector in area
    requires |fat'| == |fat| && Sound(g.fatType, fat', dir[p := ch'], used)
    requires |disc'| == |disc| && Touched(g, ch', p, disc, disc')
    requires p.sector < |disc'| && Names(g, fat', disc'[p.sector], p.record, ch')
    ensures Consistent(g, count, disc', fat', dir[p := ch'], used, area)
    ensures Contents(g, disc', dir[p := ch']) == Contents(g, disc, dir)[p := FileInfo(FileBytes(g, disc', p, ch'), ch')]
  {
    hide WellFormed, DirectoryArea, Touched, FileBytes, DataClusters, ChainFrom, Names, Sound, Contents, Numbered;
    var dir' := dir[p := ch'];
    SoundData(g, fat', dir', used, p);
    forall q | q in dir' && q != p
      ensures q in dir && dir'[q] == dir[q] && q.sector in area && q.sector < |disc'|
      ensures Names(g, fat', disc'[q.sector], q.record, dir'[q])
      ensures FileBytes(g, disc', q, dir[q]) == FileBytes(g, disc, q, dir[q])
    {
      SoundFile(g.fatType, fat', dir', used, q);
      SoundPair(g.fatType, fat', dir', used, q, p);
      OtherFile(g, count, disc, fat, dir, used, area, p, ch', disc', fat', q);
    }
    Relisted(g, disc, dir, area, disc', fat', dir', p);
  }

  /** A file has been deleted. */
  lemma Removed(g: Geometry, count: nat, disc: seq<Sector>, fat: seq<nat>, dir: map<Place, seq<nat>>, used: set<nat>,
                area: set<nat>, p: Place, disc': seq<Sector>)
    requires Consistent(g, count, disc, fat, dir, used, area) && p in dir
    requires |disc'| == |disc| && Touched(g, [], p, disc, disc')
    ensures forall i :: 0 <= i < |Visited(dir[p])| ==> Visited(dir[p])[i] < |fat|
    ensures Consistent(g, count, disc', Cleared(fat, Visited(dir[p])), dir - {p}, used, area)
    ensures Contents(g, disc', dir - {p}) == Contents(g, disc, dir) - {p}
  {
    hide WellFormed, DirectoryArea, Touched, FileBytes, ChainFrom, Names, Cleared, Sound, Contents, Numbered;
    DeleteKeepsSound(g.fatType, fat, dir, used, p);
    var fat', dir' := Cleared(fat, Visited(dir[p])), dir - {p};
    forall q | q in dir' && q != p
      ensures q in dir && dir'[q] == dir[q] && q.sector in area && q.sector < |disc'|
      ensures Names(g, fat', disc'[q.sector], q.record, dir'[q])
      ensures FileBytes(g, disc', q, dir[q]) == FileBytes(g, disc, q, dir[q])
    {
      SoundFile(g.fatType, fat', dir', used, q);
      EmptySeparate(dir[q], []);
      OtherFile(g, count, disc, fat, dir, used, area, p, [], disc', fat', q);
    }
    Relisted(g, disc, dir, area, disc', fat', dir', p);
  }
}
