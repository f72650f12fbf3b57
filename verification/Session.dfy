/** Sequences of whole operations on a volume (create, open and work on, delete), through all layers, against the users'
    view of it. */
module Sessions {
  import opened Arith
  import opened Bytes
  import opened Geometries
  import opened FatEntries
  import opened Chains
  import opened Scans
  import opened Sizes
  import opened FileData
  import opened Directories
  import opened Partitions
  import opened Slots
  import opened Fats
  import opened Files
  import opened FileOpen
  import opened Runs
  import opened Volumes
  import opened Catalogs
  import opened VolumeModels

  // ---- what the operations change on the disc ----

  /** Only the FAT and one directory record have changed. */
  lemma RestTouched(g: Geometry, ch: seq<nat>, p: Place, disc: seq<Sector>, x: Sector, disc': seq<Sector>)
    requires g.reserved + g.fatSectors <= p.sector < |disc| == |disc'| && p.record < 16
    requires Rest(g, disc') == Rest(g, disc[p.sector := x]) && OtherRecords(disc[p.sector], x, p.record)
    ensures Touched(g, ch, p, disc, disc') && disc'[p.sector] == x
  {
    hide OtherRecords, OnChain;
    var a, b := g.reserved, g.reserved + g.fatSectors;
    var disc1 := disc[p.sector := x];
    forall s | 0 <= s < |disc| && !(a <= s < b) ensures disc'[s] == disc1[s] {
      if s < a { assert disc'[..a][s] == disc1[..a][s]; } else { assert disc'[b..][s - b] == disc1[b..][s - b]; }
    }
  }

  /** Then the record once more. */
  lemma RecordTouched(g: Geometry, ch: seq<nat>, p: Place, disc: seq<Sector>, disc1: seq<Sector>, x: Sector)
    requires Touched(g, ch, p, disc, disc1) && OtherRecords(disc1[p.sector], x, p.record)
    ensures Touched(g, ch, p, disc, disc1[p.sector := x])
  {
    hide OnChain;
    OtherRecordsOn(disc[p.sector], disc1[p.sector], x, p.record);
    hide OtherRecords;
  }

  /** The file, then its record. */
  lemma EditTouched(g: Geometry, ch: seq<nat>, p: Place, disc: seq<Sector>, disc1: seq<Sector>, x: Sector)
    requires g.reserved + g.fatSectors <= p.sector < |disc| && p.record < 16 && !OnChain(g, ch, p.sector)
    requires OnlyFileChanged(g, ch, disc, disc1) && OtherRecords(disc[p.sector], x, p.record)
    ensures disc1[p.sector] == disc[p.sector] && Touched(g, ch, p, disc, disc1[p.sector := x])
  {
    hide OnChain, OtherRecords;
  }

  /** The record of a new file, after the file has been closed. */
  lemma CreatedRecord(s: Sector, i: nat, name: FatName, c: nat)
    requires i < 16 && c < UINT32
    ensures var s1 := Created(s, i, name, c);
            var s2 := WithSize(s1, i, 0);
            && RecordCluster(s2, i) == c && RecordSize(s2, i) == 0
            && OtherRecords(s, s1, i) && OtherRecords(s1, s2, i)
  {
    var s0 := Splice(s, 32 * i, DefaultRecord(name));
    var sh := Splice(s0, 32 * i + 20, Le16(c / UINT16));
    StoreInRecord(s, i, 32 * i, DefaultRecord(name));
    StoreInRecord(s0, i, 32 * i + 20, Le16(c / UINT16));
    StoreInRecord(sh, i, 32 * i + 26, Le16(c));
    StoreInRecord(Created(s, i, name, c), i, 32 * i + 28, Le32(0));
    SetThenRead(s0, i, c);
    SetThenRead(Created(s, i, name, c), i, 0);
    hide RecordCluster, RecordSize, Splice;
    OtherRecordsOn(s, s0, sh, i);
    OtherRecordsOn(s, sh, Created(s, i, name, c), i);
  }

  /** The record of a file closed with `n` bytes. */
  lemma ClosedRecord(s: Sector, i: nat, n: nat)
    requires i < 16 && n < UINT32
    ensures var s' := WithSize(s, i, n);
            RecordCluster(s', i) == RecordCluster(s, i) && RecordSize(s', i) == n && OtherRecords(s, s', i)
  {
    SetThenRead(s, i, n);
    StoreInRecord(s, i, 32 * i + 28, Le32(n));
  }

  /** The record of a file that has got its first cluster. */
  lemma AdoptedRecord(s: Sector, i: nat, c: nat)
    requires i < 16 && c < UINT32
    ensures var s' := WithCluster(s, i, c);
            RecordCluster(s', i) == c && RecordSize(s', i) == RecordSize(s, i) && OtherRecords(s, s', i)
  {
    var sh := Splice(s, 32 * i + 20, Le16(c / UINT16));
    StoreInRecord(s, i, 32 * i + 20, Le16(c / UINT16));
    StoreInRecord(sh, i, 32 * i + 26, Le16(c));
    SetThenRead(s, i, c);
    hide RecordCluster, RecordSize, Splice;
    OtherRecordsOn(s, sh, WithCluster(s, i, c), i);
  }

  // ---- what they amount to ----

  ghost function Abstract(g: Geometry, disc: seq<Sector>, fat: seq<nat>, dir: map<Place, seq<nat>>): Model {
    Model(Contents(g, disc, dir), Free(fat))
  }

  lemma ConsistentFacts(g: Geometry, count: nat, disc: seq<Sector>, fat: seq<nat>, dir: map<Place, seq<nat>>,
                        used: set<nat>, area: set<nat>, s: nat)
    requires Consistent(g, count, disc, fat, dir, used, area) && s in area
    ensures g.spc > 0 && |disc| == count && |fat| == g.dcc + 2 && Numbered(g.fatType, fat)
    ensures g.reserved + g.fatSectors <= s < count && WellFormed(g, count) && |fat| < UINT32
    ensures Sound(g.fatType, fat, dir, used)
  {
    hide Listed, Sound;
    assert Numbered(g.fatType, fat) by { SoundNumbered(g.fatType, fat, dir, used); }
  }

  lemma SoundNumbered(t: FatType, fat: seq<nat>, dir: map<Place, seq<nat>>, used: set<nat>)
    requires Sound(t, fat, dir, used)
    ensures Numbered(t, fat)
  {
  }

  /** The chain of a new file. */
  function NewChain(c: nat): seq<nat> { if c == 0 then [] else [c] }

  /** All chains after a file has been created, and the free clusters. */
  lemma CreateSound(t: FatType, fat: seq<nat>, dir: map<Place, seq<nat>>, used: set<nat>, p: Place)
    requires Sound(t, fat, dir, used) && p !in dir && 2 <= |fat|
    ensures var c := FirstFreeCluster(fat, |fat| - 2);
            && c < |fat| && Sound(t, fat[c := GiveEoc(t)], dir[p := NewChain(c)], used)
            && Free(fat[c := GiveEoc(t)]) == if c == 0 then Free(fat) else Free(fat) - {c}
  {
    hide FirstFreeCluster, Sound, Grew;
    SoundNumbered(t, fat, dir, used);
    var c := FirstFreeCluster(fat, |fat| - 2);
    if c == 0 {
      EmptyFileKeepsSound(t, fat, dir, used, p, GiveEoc(t));
      assert Free(fat[0 := GiveEoc(t)]) == Free(fat);
    } else {
      CreateGrows(t, fat);
      GrowKeepsSound(t, fat, dir, used, p, [], fat[c := GiveEoc(t)], [c]);
    }
  }

  lemma CreateOutcome(g: Geometry, count: nat, disc: seq<Sector>, fat: seq<nat>, dir: map<Place, seq<nat>>,
                      used: set<nat>, area: set<nat>, p: Place, name: FatName, disc1: seq<Sector>, disc2: seq<Sector>)
    requires Consistent(g, count, disc, fat, dir, used, area)
    requires p !in dir && p.sector in area && p.record < 16
    requires g.dcc <= |fat| && p.sector < |disc| == |disc1| && g.reserved + g.fatSectors <= |disc|
    requires var c := FirstFreeCluster(fat, g.dcc);
             Rest(g, disc1) == Rest(g, disc[p.sector := Created(disc[p.sector], p.record, name, c)])
    requires disc2 == disc1[p.sector := WithSize(disc1[p.sector], p.record, 0)]
    ensures var c := FirstFreeCluster(fat, g.dcc);
            && c < |fat|
            && var fat' := fat[c := GiveEoc(g.fatType)];
            && Consistent(g, count, disc2, fat', dir[p := NewChain(c)], used, area)
            && Abstract(g, disc2, fat', dir[p := NewChain(c)]) == VolumeStep(g, Abstract(g, disc, fat, dir), VolumeOp.Create(p, name)).0
            && Touched(g, [], p, disc, disc2)
            && disc2[p.sector] == WithSize(Created(disc[p.sector], p.record, name, c), p.record, 0)
  {
    hide Consistent, FirstFreeCluster, Created, WithSize, Rest, Touched, Contents, Free, OtherRecords, Names, DefaultRecord, Sound;
    hide RecordCluster, RecordSize, ChainBytes, ChainFrom, FirstOf;
    ConsistentFacts(g, count, disc, fat, dir, used, area, p.sector);
    CreateSound(g.fatType, fat, dir, used, p);
    FirstIs(g, fat);
    var c := FirstFreeCluster(fat, g.dcc);
    var fat' := fat[c := GiveEoc(g.fatType)];
    CreatedRecord(disc[p.sector], p.record, name, c);
    RestTouched(g, [], p, disc, Created(disc[p.sector], p.record, name, c), disc1);
    RecordTouched(g, [], p, disc, disc1, WithSize(disc1[p.sector], p.record, 0));
    TouchedMore(g, NewChain(c), p, disc, disc2);
    NewNames(g, count, fat, disc2[p.sector], p.record);
    Updated(g, count, disc, fat, dir, used, area, p, disc2, fat', NewChain(c));
    assert FileBytes(g, disc2, p, NewChain(c)) == [];
  }

  lemma TouchedMore(g: Geometry, ch: seq<nat>, p: Place, disc: seq<Sector>, disc': seq<Sector>)
    requires Touched(g, [], p, disc, disc')
    ensures Touched(g, ch, p, disc, disc')
  {
    hide OtherRecords, SectorOf;
    assert Sectors(g, []) == 0;
  }

  lemma NewNames(g: Geometry, count: nat, fat: seq<nat>, s: Sector, i: nat)
    requires WellFormed(g, count) && |fat| == g.dcc + 2 && Numbered(g.fatType, fat) && i < 16
    requires RecordCluster(s, i) == FirstFreeCluster(fat, g.dcc) && RecordSize(s, i) == 0
    ensures var c := FirstFreeCluster(fat, g.dcc);
            c < |fat| && Names(g, fat[c := GiveEoc(g.fatType)], s, i, NewChain(c))
  {
    hide WellFormed, FirstFreeCluster, RecordCluster, RecordSize, Measured, ChainFrom;
    FirstFreeFacts(g, fat);
    CreatedMeasured(g, count, FirstFreeCluster(fat, g.dcc));
  }

  /** A file without clusters has been opened for appending and has got its first. */
  lemma AdoptOutcome(g: Geometry, count: nat, disc: seq<Sector>, fat: seq<nat>, dir: map<Place, seq<nat>>,
                     used: set<nat>, area: set<nat>, p: Place, disc': seq<Sector>, fat': seq<nat>, ch: seq<nat>)
    requires Consistent(g, count, disc, fat, dir, used, area) && p in dir && dir[p] == [] && p.sector in area && p.record < 16
    requires FirstTaken(g, fat, disc, p.sector, p.record, ch, fat', disc') && FirstOf(g, Free(fat)) != 0
    ensures Consistent(g, count, disc', fat', dir[p := ch], used, area) && ch == [FirstOf(g, Free(fat))]
    ensures Abstract(g, disc', fat', dir[p := ch]) == Adopted(g, Abstract(g, disc, fat, dir), p)
    ensures Touched(g, [], p, disc, disc') && NamePart(disc'[p.sector], p.record) == NamePart(disc[p.sector], p.record)
    ensures RecordSize(disc'[p.sector], p.record) == RecordSize(disc[p.sector], p.record)
  {
    hide Consistent, FirstFreeCluster, WithCluster, Rest, Touched, Contents, Free, OtherRecords, Names, Sound, Grew;
    hide RecordCluster, RecordSize, ChainBytes, ChainFrom, FirstOf, FileBytes, NamePart;
    ConsistentFacts(g, count, disc, fat, dir, used, area, p.sector);
    FirstIs(g, fat);
    var c := FirstFreeCluster(fat, g.dcc);
    CreateGrows(g.fatType, fat);
    GrowKeepsSound(g.fatType, fat, dir, used, p, [], fat', [c]);
    AdoptedRecord(disc[p.sector], p.record, c);
    AdoptedName(disc[p.sector], p.record, c);
    RestTouched(g, [], p, disc, WithCluster(disc[p.sector], p.record, c), disc');
    TouchedMore(g, [c], p, disc, disc');
    NoSize(g, count, disc, fat, dir, used, area, p);
    NewNames(g, count, fat, disc'[p.sector], p.record);
    Updated(g, count, disc, fat, dir, used, area, p, disc', fat', [c]);
    EmptyBytes(g, disc', p, [c]);
    ChainOf(g, count, disc, fat, dir, used, area, p);
    EmptyBytes(g, disc, p, []);
  }

  /** The bytes of a record other than its cluster and size. */
  function NamePart(s: Sector, i: nat): seq<Byte>
    requires i < 16
  {
    s[32 * i..32 * i + 20] + s[32 * i + 22..32 * i + 26]
  }

  lemma AdoptedName(s: Sector, i: nat, c: nat)
    requires i < 16
    ensures NamePart(WithCluster(s, i, c), i) == NamePart(s, i)
  {
  }

  lemma EmptyBytes(g: Geometry, disc: seq<Sector>, p: Place, ch: seq<nat>)
    requires p.sector < |disc| && p.record < 16 && RecordSize(disc[p.sector], p.record) == 0
    ensures FileBytes(g, disc, p, ch) == []
  {
    hide RecordSize, ChainBytes;
  }

  lemma NoSize(g: Geometry, count: nat, disc: seq<Sector>, fat: seq<nat>, dir: map<Place, seq<nat>>,
               used: set<nat>, area: set<nat>, p: Place)
    requires Consistent(g, count, disc, fat, dir, used, area) && p in dir && dir[p] == []
    ensures p.sector < |disc| && p.record < 16 && RecordSize(disc[p.sector], p.record) == 0
  {
    hide WellFormed, Sound, DirectoryArea, RecordCluster, RecordSize;
    NoClusters(g);
  }

  lemma EditOutcome(g: Geometry, count: nat, disc: seq<Sector>, fat: seq<nat>, dir: map<Place, seq<nat>>,
                    used: set<nat>, area: set<nat>, p: Place, disc1: seq<Sector>, fat': seq<nat>, ch': seq<nat>, size: nat,
                    disc2: seq<Sector>)
    requires Consistent(g, count, disc, fat, dir, used, area) && p in dir && dir[p] != [] && p.sector in area && p.record < 16
    requires Grew(g.fatType, fat, dir[p], fat', ch') && OnlyFileChanged(g, ch', disc, disc1) && Measured(g, ch', size)
    requires |disc1| == |disc| && p.sector < |disc| && size < UINT32
    requires disc2 == disc1[p.sector := WithSize(disc1[p.sector], p.record, size)]
    ensures Consistent(g, count, disc2, fat', dir[p := ch'], used, area)
    ensures size <= 512 * Sectors(g, ch')
    ensures Contents(g, disc2, dir[p := ch']) == Contents(g, disc, dir)[p := FileInfo(ChainBytes(g, disc2, ch')[..size], ch')]
    ensures Free(fat') == Free(fat) - Members(ch'[|dir[p]|..])
    ensures Touched(g, ch', p, disc, disc2) && NamePart(disc2[p.sector], p.record) == NamePart(disc[p.sector], p.record)
  {
    hide Consistent, WithSize, Touched, Contents, OtherRecords, Grew, Names, FreeBelow, Sound, WellFormed, DataClusters, OnChain;
    hide RecordCluster, RecordSize, ChainBytes, ChainFrom, OnlyFileChanged, Sectors, NamePart;
    ConsistentFacts(g, count, disc, fat, dir, used, area, p.sector);
    GrownOff(g, count, disc, fat, dir, used, area, p, fat', ch');
    GrewFree(g.fatType, fat, dir[p], fat', ch');
    GrowKeepsSound(g.fatType, fat, dir, used, p, dir[p], fat', ch');
    ClosedRecord(disc[p.sector], p.record, size);
    ClosedName(disc[p.sector], p.record, size);
    EditTouched(g, ch', p, disc, disc1, WithSize(disc[p.sector], p.record, size));
    EditedNames(g, disc, fat, dir, area, p, disc2[p.sector], fat', ch', size);
    Updated(g, count, disc, fat, dir, used, area, p, disc2, fat', ch');
  }

  lemma ClosedName(s: Sector, i: nat, n: nat)
    requires i < 16
    ensures NamePart(WithSize(s, i, n), i) == NamePart(s, i)
  {
  }

  lemma GrownOff(g: Geometry, count: nat, disc: seq<Sector>, fat: seq<nat>, dir: map<Place, seq<nat>>,
                 used: set<nat>, area: set<nat>, p: Place, fat': seq<nat>, ch': seq<nat>)
    requires Consistent(g, count, disc, fat, dir, used, area) && p in dir && dir[p] != [] && p.sector in area
    requires Grew(g.fatType, fat, dir[p], fat', ch')
    ensures Numbered(g.fatType, fat) && IsChain(g.fatType, fat, dir[p]) && |fat'| == |fat|
    ensures !OnChain(g, ch', p.sector) && Listed(g, disc, fat, dir, area)
  {
    assert |fat'| == |fat|;
    hide Sound, Grew, ChainFrom, DirectoryArea, Listed, OnChain, Numbered;
    GrowKeepsSound(g.fatType, fat, dir, used, p, dir[p], fat', ch');
    SoundFile(g.fatType, fat, dir, used, p);
    SoundData(g, fat', dir[p := ch'], used, p);
    AreaOffChain(g, count, used, area, ch', p.sector);
  }

  lemma EditedNames(g: Geometry, disc: seq<Sector>, fat: seq<nat>, dir: map<Place, seq<nat>>, area: set<nat>, p: Place,
                    s': Sector, fat': seq<nat>, ch': seq<nat>, size: nat)
    requires Listed(g, disc, fat, dir, area) && p in dir && p.sector < |disc| && p.record < 16
    requires Grew(g.fatType, fat, dir[p], fat', ch') && Measured(g, ch', size) && IsChain(g.fatType, fat, dir[p])
    requires RecordCluster(s', p.record) == RecordCluster(disc[p.sector], p.record) && RecordSize(s', p.record) == size
    ensures Names(g, fat', s', p.record, ch')
  {
    hide RecordCluster, RecordSize, Measured;
    assert ch'[0] == dir[p][0];
  }

  /** The chain after an edit is the one the users' view gives. */
  lemma GrownIs(g: Geometry, fat: seq<nat>, ch: seq<nat>, ch': seq<nat>, size: nat)
    requires g.spc > 0 && |fat| == g.dcc + 2 && IsChain(g.fatType, fat, ch) && InOrder(fat, ch, ch') && Numbered(g.fatType, fat)
    requires |ch'| == Longer(|ch|, CeilDiv(size, 512 * g.spc))
    ensures ch' == Grown(g, Free(fat), ch, size)
    ensures Members(ch') - Members(ch) == Members(ch'[|ch|..])
  {
    LastInRange(g.fatType, fat, ch);
    NextIs(g, fat, ch[|ch| - 1]);
    TailOf(ch, ch'[|ch|..]);
    NewMembers(g.fatType, fat, ch, ch');
    hide Candidates, NextOf, CeilDiv, Free, Members;
  }

  lemma NewMembers(t: FatType, fat: seq<nat>, ch: seq<nat>, ch': seq<nat>)
    requires IsChain(t, fat, ch) && InOrder(fat, ch, ch') && Numbered(t, fat)
    ensures Members(ch') - Members(ch) == Members(ch'[|ch|..])
  {
    var xs := ch'[|ch|..];
    LastInRange(t, fat, ch);
    CandidatesExact(fat, ch[|ch| - 1], |fat| - 2);
    var cands := Candidates(fat, ch[|ch| - 1], |fat| - 2);
    assert ch' == ch + xs && xs == cands[..|xs|];
    hide Candidates, ChainFrom;
    forall i, j | 0 <= i < |xs| && 0 <= j < |ch| ensures xs[i] != ch[j] {
      assert fat[cands[i]] == 0;
      ChainEntriesNonZero(t, fat, ch, j);
    }
    MembersOfBoth(ch, xs);
  }

  lemma MembersOfBoth(a: seq<nat>, b: seq<nat>)
    ensures Members(a + b) == Members(a) + Members(b)
  {
    var c := a + b;
    forall x | x in Members(a) ensures x in Members(c) {
      var i :| 0 <= i < |a| && a[i] == x;
      assert c[i] == x;
    }
    forall x | x in Members(b) ensures x in Members(c) {
      var i :| 0 <= i < |b| && b[i] == x;
      assert c[|a| + i] == x;
    }
  }

  lemma DeleteOutcome(g: Geometry, count: nat, disc: seq<Sector>, fat: seq<nat>, dir: map<Place, seq<nat>>,
                      used: set<nat>, area: set<nat>, p: Place, disc': seq<Sector>)
    requires Consistent(g, count, disc, fat, dir, used, area) && p in dir && p.sector in area && p.record < 16
    requires p.sector < |disc| == |disc'| && g.reserved + g.fatSectors <= |disc|
    requires Rest(g, disc') == Rest(g, disc[p.sector := Splice(disc[p.sector], 32 * p.record, [DELETED])])
    ensures forall i :: 0 <= i < |Visited(dir[p])| ==> Visited(dir[p])[i] < |fat|
    ensures var fat' := Cleared(fat, Visited(dir[p]));
            && Consistent(g, count, disc', fat', dir - {p}, used, area)
            && Abstract(g, disc', fat', dir - {p}) == VolumeStep(g, Abstract(g, disc, fat, dir), Delete(p)).0
            && Touched(g, [], p, disc, disc') && disc'[p.sector] == Splice(disc[p.sector], 32 * p.record, [DELETED])
  {
    hide Consistent, Touched, Contents, OtherRecords, Free, ChainFrom, Rest, Splice, Cleared, Sound, Numbered;
    ConsistentFacts(g, count, disc, fat, dir, used, area, p.sector);
    StoreInRecord(disc[p.sector], p.record, 32 * p.record, [DELETED]);
    RestTouched(g, [], p, disc, Splice(disc[p.sector], 32 * p.record, [DELETED]), disc');
    Removed(g, count, disc, fat, dir, used, area, p, disc');
    ChainOf(g, count, disc, fat, dir, used, area, p);
    DeleteFrees(g.fatType, fat, dir[p]);
  }

  lemma ChainOf(g: Geometry, count: nat, disc: seq<Sector>, fat: seq<nat>, dir: map<Place, seq<nat>>,
                used: set<nat>, area: set<nat>, p: Place)
    requires Consistent(g, count, disc, fat, dir, used, area) && p in dir
    ensures 0 < |fat| && (dir[p] != [] ==> IsChain(g.fatType, fat, dir[p]))
    ensures p in Contents(g, disc, dir) && Contents(g, disc, dir)[p] == FileInfo(FileBytes(g, disc, p, dir[p]), dir[p])
  {
    hide WellFormed, Listed, DirectoryArea, FileBytes, Sound;
    SoundFile(g.fatType, fat, dir, used, p);
  }

  lemma PlaceApart(g: Geometry, count: nat, disc: seq<Sector>, fat: seq<nat>, dir: map<Place, seq<nat>>,
                   used: set<nat>, area: set<nat>, p: Place)
    requires Consistent(g, count, disc, fat, dir, used, area) && p.sector in area
    ensures Apart(g, fat, [], p.sector)
    ensures p in dir ==> Apart(g, fat, dir[p], p.sector)
    ensures p in dir <==> p in Contents(g, disc, dir)
  {
    hide WellFormed, Sound, DirectoryArea, Listed, Apart, ChainFrom, FileBytes, Numbered;
    AreaApart(g, count, fat, dir, used, area, [], p.sector);
    if p in dir {
      SoundFile(g.fatType, fat, dir, used, p);
      AreaApart(g, count, fat, dir, used, area, dir[p], p.sector);
    }
  }

  // ---- what the operations leave of the directories ----

  /** All directory records but that at `p` are the same, byte for byte. */
  ghost predicate AreaKept(area: set<nat>, p: Place, disc: seq<Sector>, disc': seq<Sector>) {
    && |disc'| == |disc|
    && forall s :: s in area && s < |disc| ==> if s == p.sector then OtherRecords(disc[s], disc'[s], p.record) else disc'[s] == disc[s]
  }

  /** The FAT entries of the directories' clusters are the same. */
  ghost predicate UsedKept(used: set<nat>, fat: seq<nat>, fat': seq<nat>) {
    |fat'| == |fat| && forall c :: c in used && c < |fat| ==> fat'[c] == fat[c]
  }

  lemma AreaUntouched(g: Geometry, count: nat, disc: seq<Sector>, fat: seq<nat>, dir: map<Place, seq<nat>>,
                      used: set<nat>, area: set<nat>, p: Place, ch: seq<nat>, disc': seq<Sector>)
    requires Consistent(g, count, disc, fat, dir, used, area) && p in dir && ch == dir[p]
    requires Touched(g, ch, p, disc', disc) || Touched(g, ch, p, disc, disc')
    requires |disc'| == |disc|
    ensures Touched(g, ch, p, disc, disc') ==> AreaKept(area, p, disc, disc')
    ensures Touched(g, ch, p, disc', disc) ==> AreaKept(area, p, disc', disc)
  {
    hide Sound, Listed, OtherRecords, OnChain, WellFormed;
    SoundData(g, fat, dir, used, p);
    forall s | s in area ensures g.reserved + g.fatSectors <= s < count && !OnChain(g, ch, s) {
      AreaOffChain(g, count, used, area, ch, s);
    }
    hide DirectoryArea;
  }

  lemma AreaUntouchedBy(g: Geometry, count: nat, disc: seq<Sector>, fat: seq<nat>, dir: map<Place, seq<nat>>,
                        used: set<nat>, area: set<nat>, p: Place, disc': seq<Sector>)
    requires Consistent(g, count, disc, fat, dir, used, area) && |disc'| == |disc| && Touched(g, [], p, disc, disc')
    ensures AreaKept(area, p, disc, disc')
  {
    hide Sound, Listed, OtherRecords, OnChain, WellFormed;
    forall s | s in area ensures g.reserved + g.fatSectors <= s < count && !OnChain(g, [], s) {
      AreaOffChain(g, count, used, area, [], s);
    }
    hide DirectoryArea;
  }

  lemma AreaKeptOn(area: set<nat>, p: Place, d0: seq<Sector>, d1: seq<Sector>, d2: seq<Sector>)
    requires AreaKept(area, p, d0, d1) && AreaKept(area, p, d1, d2)
    ensures AreaKept(area, p, d0, d2)
  {
    if p.sector in area && p.sector < |d0| { OtherRecordsOn(d0[p.sector], d1[p.sector], d2[p.sector], p.record); }
    hide OtherRecords;
  }

  lemma UsedKeptOn(used: set<nat>, fat0: seq<nat>, fat1: seq<nat>, fat2: seq<nat>)
    requires UsedKept(used, fat0, fat1) && UsedKept(used, fat1, fat2)
    ensures UsedKept(used, fat0, fat2)
  {
  }

  lemma UsedEntries(t: FatType, fat: seq<nat>, dir: map<Place, seq<nat>>, used: set<nat>, own: seq<nat>, fat': seq<nat>)
    requires Sound(t, fat, dir, used) && |fat'| == |fat| && (forall i :: 0 <= i < |own| ==> own[i] !in used)
    requires forall c :: 0 <= c < |fat| && c !in own ==> fat'[c] == fat[c]
    ensures UsedKept(used, fat, fat')
  {
    hide Sound;
  }

  // ---- the operations ----

  /** One file object used for one operation after the other on a volume. */
  class Session {
    const f: File
    ghost const used: set<nat>            // clusters of directories
    ghost const area: set<nat>            // sectors with directory records
    ghost var dir: map<Place, seq<nat>>   // the files and their chains

    constructor (f: File, ghost used: set<nat>, ghost area: set<nat>, ghost dir: map<Place, seq<nat>>)
      ensures this.f == f && this.used == used && this.area == area && this.dir == dir
    {
      this.f, this.used, this.area, this.dir := f, used, area, dir;
    }

    /** The volume is consistent and the file object is closed; a cleared object has no cluster count. */
    ghost predicate Valid()
      reads this, f, f.cache, f.fs.part.io
    {
      && f.fs.Ok() && f.cache.clusterCount == 0
      && Consistent(f.fs.g, f.fs.part.count, f.fs.part.Disc(), f.fs.Table(), dir, used, area)
    }

    ghost function Model(): Model
      requires f.fs.Ok()
      reads this, f, f.fs.part.io
    {
      Abstract(f.fs.g, f.fs.part.Disc(), f.fs.Table(), dir)
    }

    /** The device outside the partition and the buffers held. */
    twostate predicate Elsewhere()
      reads this, f, f.fs.part.io
    {
      && old(f.fs.Ok()) && f.fs.Ok()
      && f.fs.part.Outside() == old(f.fs.part.Outside()) && f.fs.part.io.held == old(f.fs.part.io.held)
      && f.fs.part.Slack() == old(f.fs.part.Slack())
    }

    /** The directories: every record but that at `p`, and the directories' chains. */
    twostate predicate DirectoriesKept(p: Place)
      reads this, f, f.fs.part.io
    {
      && old(f.fs.Ok()) && f.fs.Ok()
      && AreaKept(area, p, old(f.fs.part.Disc()), f.fs.part.Disc())
      && UsedKept(used, old(f.fs.Table()), f.fs.Table())
    }

    /** file_fopen for writing and file_fclose. */
    method CreateFile(p: Place, name: FatName)
      requires Valid() && f.fs.part.Slack() >= Buffers(f.fs.g) && Enabled(f.fs.g, area, Model(), VolumeOp.Create(p, name))
      modifies this`dir, f, f.cache, f.fs.part.io
      ensures Valid() && Elsewhere() && DirectoriesKept(p)
      ensures Model() == VolumeStep(f.fs.g, old(Model()), VolumeOp.Create(p, name)).0
      ensures p.sector < f.fs.part.count && p.record < 16
      ensures var c := FirstFreeCluster(old(f.fs.Table()), f.fs.g.dcc);
              f.fs.part.Disc()[p.sector] == WithSize(Created(old(f.fs.part.Disc()[p.sector]), p.record, name, c), p.record, 0)
      ensures p in Model().files
      ensures var ch := Model().files[p].chain;
              NewFile(old(f.fs.part.Disc()[p.sector]), f.fs.part.Disc()[p.sector], p.record, name, if ch == [] then 0 else ch[0])
    {
      hide CacheOk, Fat, Partition.Disc, Partition.Outside, Partition.Slack, FileSystem.Table, Partition.Ready, AreaKept, UsedKept;
      hide WellFormed, ChainFrom, Sectors, Apart, FirstFreeCluster, Created, WithSize, Rest, Numbered, Measured, ClusterChain.Tracks;
      hide Consistent, Contents, Free, VolumeStep, ChainBytes, Touched, NewFile, HoldsSize;
      ghost var disc, fat := f.fs.part.Disc(), f.fs.Table();
      PlaceFacts(p);
      f.Create(name, p.sector, p.record);
      ghost var disc1 := f.fs.part.Disc();
      Close(f);
      CreateOutcome(f.fs.g, f.fs.part.count, disc, fat, dir, used, area, p, name, disc1, f.fs.part.Disc());
      AreaUntouchedBy(f.fs.g, f.fs.part.count, disc, fat, dir, used, area, p, f.fs.part.Disc());
      CreatedUsed(f.fs.g, f.fs.part.count, disc, fat, dir, used, area, p);
      dir := dir[p := NewChain(FirstFreeCluster(fat, f.fs.g.dcc))];
      CreatedBytes(disc[p.sector], p.record, name, FirstFreeCluster(fat, f.fs.g.dcc));
      FileOf(p);
    }

    lemma FileOf(p: Place)
      requires f.fs.Ok() && p in dir
      ensures p in Model().files && Model().files[p].chain == dir[p]
    {
      hide CacheOk, Fat, Partition.Disc, Partition.Slack, FileSystem.Table, Partition.Ready, WellFormed, FileBytes, Free;
    }

    lemma PlaceFacts(p: Place)
      requires Valid() && p.sector in area
      ensures f.fs.IsData(p.sector) && f.fs.g.spc > 0
      ensures Apart(f.fs.g, f.fs.Table(), [], p.sector)
      ensures p in dir <==> p in Model().files
      ensures p in dir ==> Apart(f.fs.g, f.fs.Table(), dir[p], p.sector)
    {
      hide CacheOk, Fat, Partition.Disc, Partition.Slack, FileSystem.Table, Partition.Ready, Apart, WellFormed, Consistent;
      ConsistentFacts(f.fs.g, f.fs.part.count, f.fs.part.Disc(), f.fs.Table(), dir, used, area, p.sector);
      PlaceApart(f.fs.g, f.fs.part.count, f.fs.part.Disc(), f.fs.Table(), dir, used, area, p);
    }

    /** rmfile */
    method DeleteFile(p: Place)
      requires Valid() && f.fs.part.Slack() >= Buffers(f.fs.g) && Enabled(f.fs.g, area, Model(), Delete(p))
      modifies this`dir, f.fs.part.io, f.fs`freeClusterCount
      ensures Valid() && Elsewhere() && DirectoriesKept(p)
      ensures Model() == VolumeStep(f.fs.g, old(Model()), Delete(p)).0
      ensures p.sector < f.fs.part.count && p.record < 16
      ensures f.fs.part.Disc()[p.sector] == Splice(old(f.fs.part.Disc()[p.sector]), 32 * p.record, [DELETED])
      ensures Erased(old(f.fs.part.Disc()[p.sector]), f.fs.part.Disc()[p.sector], p.record)
    {
      hide CacheOk, Fat, Partition.Disc, Partition.Outside, Partition.Slack, FileSystem.Table, Partition.Ready, AreaKept, UsedKept;
      hide WellFormed, ChainFrom, Rest, Numbered, Apart, Names, Splice, Cleared, Visited, Touched, Erased;
      hide Consistent, Contents, Free, VolumeStep;
      ghost var disc, fat := f.fs.part.Disc(), f.fs.Table();
      ListedFacts(p);
      PlaceFacts(p);
      Remove(f.fs, p.sector, p.record, dir[p]);
      DeleteOutcome(f.fs.g, f.fs.part.count, disc, fat, dir, used, area, p, f.fs.part.Disc());
      AreaUntouchedBy(f.fs.g, f.fs.part.count, disc, fat, dir, used, area, p, f.fs.part.Disc());
      DeletedUsed(f.fs.g, f.fs.part.count, disc, fat, dir, used, area, p);
      dir := dir - {p};
    }

    lemma ListedFacts(p: Place)
      requires Valid() && p in Model().files
      ensures p in dir && p.sector in area && p.sector < f.fs.part.count && p.record < 16
      ensures Names(f.fs.g, f.fs.Table(), f.fs.part.Disc()[p.sector], p.record, dir[p])
      ensures Model().files[p] == FileInfo(FileBytes(f.fs.g, f.fs.part.Disc(), p, dir[p]), dir[p])
    {
      hide CacheOk, Fat, Partition.Disc, Partition.Slack, FileSystem.Table, Partition.Ready, WellFormed, Sound, DirectoryArea, FileBytes;
      hide RecordCluster, RecordSize, ChainFrom, Measured;
    }

    /** What is on the disc for a file: a record with its first cluster and its size. */
    lemma RecordHolds(p: Place)
      requires Valid() && p in Model().files
      ensures p.sector in area && p.sector < f.fs.part.count && p.record < 16
      ensures var i := Model().files[p];
              && Fields(f.fs.part.Disc()[p.sector], p.record, if i.chain == [] then 0 else i.chain[0], |i.content|)
              && (i.chain != [] ==> i.chain[0] >= 2)
    {
      hide CacheOk, Fat, Partition.Disc, Partition.Slack, FileSystem.Table, Partition.Ready, WellFormed, Consistent, Contents, Free;
      hide RecordCluster, RecordSize, ChainFrom, Fields;
      ListedFacts(p);
      if dir[p] != [] { FirstInRange(f.fs.g.fatType, f.fs.Table(), dir[p], 0); }
      RecordFields(f.fs.part.Disc()[p.sector], p.record);
    }

    /** file_fopen for appending, any calls on the open file, file_fclose. */
    method EditFile(p: Place, ops: seq<FileOp>, ghost limit: nat) returns (outs: seq<seq<Byte>>)
      requires Valid() && f.fs.part.Slack() >= Buffers(f.fs.g) + 1 && Enabled(f.fs.g, area, Model(), Edit(p, ops, limit))
      modifies this`dir, f, f.cache, f.fs.part.io, f.fs`freeClusterCount
      ensures Valid() && Elsewhere() && DirectoriesKept(p)
      ensures (Model(), outs) == VolumeStep(f.fs.g, old(Model()), Edit(p, ops, limit))
      ensures p.sector < f.fs.part.count && p.record < 16
      ensures NamePart(f.fs.part.Disc()[p.sector], p.record) == NamePart(old(f.fs.part.Disc()[p.sector]), p.record)
    {
      hide CacheOk, Fat, Partition.Disc, Partition.Outside, Partition.Slack, FileSystem.Table, Partition.Ready, AreaKept, UsedKept;
      hide WellFormed, ChainFrom, Apart, WithSize, Rest, Numbered, ClusterChain.Tracks, Names, AllAllowed, Measured, NamePart;
      hide Consistent, Contents, Free, ChainBytes, RunModel, OnlyFileChanged, Grew, CeilDiv, Longer, Missing, Edited, Adopted;
      hide Touched, InOrder, RecordSize, NextOf;
      ghost var disc, fat := f.fs.part.Disc(), f.fs.Table();
      AdoptedFacts(f.fs.g, Model(), p);
      OpenForEdit(p, limit);
      ghost var disc0, fat0 := f.fs.part.Disc(), f.fs.Table();
      outs := Work(p, ops, limit);
      AreaKeptOn(area, p, disc, disc0, f.fs.part.Disc());
      UsedKeptOn(used, fat, fat0, f.fs.Table());
    }

    /** The calls on the open file, and file_fclose. */
    method Work(p: Place, ops: seq<FileOp>, ghost limit: nat) returns (outs: seq<seq<Byte>>)
      requires f.fs.Ok() && Consistent(f.fs.g, f.fs.part.count, f.fs.part.Disc(), f.fs.Table(), dir, used, area)
      requires p in dir && p.sector in area && p.sector < f.fs.part.count && p.record < 16 && f.chain == dir[p] != []
      requires f.locSector == p.sector && f.locOffset == p.record && Editing(f, limit) && p in Model().files
      requires Seen(f) == Opened(Model().files[p]) && AllAllowed(Seen(f), ops, limit)
      requires Model().files[p] == FileInfo(FileBytes(f.fs.g, f.fs.part.Disc(), p, dir[p]), dir[p])
      modifies this`dir, f, f.cache, f.fs.part.io, f.fs`freeClusterCount
      ensures Valid() && Elsewhere() && DirectoriesKept(p)
      ensures (Model(), outs) == Edited(f.fs.g, old(Model()), p, ops)
      ensures NamePart(f.fs.part.Disc()[p.sector], p.record) == NamePart(old(f.fs.part.Disc()[p.sector]), p.record)
    {
      hide CacheOk, Fat, Partition.Disc, Partition.Outside, Partition.Slack, FileSystem.Table, Partition.Ready, AreaKept, UsedKept;
      hide WellFormed, ChainFrom, Apart, WithSize, Rest, Numbered, ClusterChain.Tracks, AllAllowed, Measured, NamePart;
      hide Consistent, Contents, Free, ChainBytes, RunModel, OnlyFileChanged, Grew, CeilDiv, Longer, Missing, Edited;
      hide Touched, InOrder, RecordSize, FileBytes, Sectors;
      ghost var disc0, fat0 := f.fs.part.Disc(), f.fs.Table();
      Positive(f);
      outs := Play(f, ops, limit);
      ghost var disc1, fm, fat', ch' := f.fs.part.Disc(), Seen(f), f.fs.Table(), f.chain;
      Close(f);
      EditModel(f.fs.g, f.fs.part.count, disc0, fat0, dir, used, area, p, ops, disc1, fat', ch', fm, outs, f.fs.part.Disc());
      dir := dir[p := ch'];
    }

    /** The file opened for appending, with a first cluster if it had none. */
    method OpenForEdit(p: Place, ghost limit: nat)
      requires Valid() && f.fs.part.Slack() >= Buffers(f.fs.g) + 1 && p in Model().files
      requires limit + 512 * f.fs.g.spc <= UINT32
      requires var m1 := Adopted(f.fs.g, Model(), p);
               && p in m1.files
               && var ch := m1.files[p].chain;
               && ch != [] && Missing(f.fs.g, |ch|, limit) <= |NextOf(f.fs.g, m1.free, ch[|ch| - 1])|
      modifies this`dir, f, f.cache, f.fs.part.io
      ensures Elsewhere() && DirectoriesKept(p)
      ensures Consistent(f.fs.g, f.fs.part.count, f.fs.part.Disc(), f.fs.Table(), dir, used, area)
      ensures Model() == Adopted(f.fs.g, old(Model()), p)
      ensures p in dir && p.sector in area && p.sector < f.fs.part.count && p.record < 16 && f.chain == dir[p] != []
      ensures f.locSector == p.sector && f.locOffset == p.record
      ensures Editing(f, limit) && f.filePtr == f.fileSize && Seen(f) == Opened(Model().files[p])
      ensures Model().files[p] == FileInfo(FileBytes(f.fs.g, f.fs.part.Disc(), p, dir[p]), dir[p])
      ensures NamePart(f.fs.part.Disc()[p.sector], p.record) == NamePart(old(f.fs.part.Disc()[p.sector]), p.record)
    {
      hide CacheOk, Fat, Partition.Disc, Partition.Outside, Partition.Slack, FileSystem.Table, Partition.Ready, AreaKept, UsedKept;
      hide WellFormed, ChainFrom, Apart, Rest, Numbered, ClusterChain.Tracks, Names, NamePart, FirstTaken;
      hide Consistent, Contents, Free, Missing, NextOf, Touched, FirstOf;
      ghost var disc, fat, ch := f.fs.part.Disc(), f.fs.Table(), Model().files[p].chain;
      ListedFacts(p);
      PlaceFacts(p);
      AdoptedFacts(f.fs.g, Model(), p);
      OpenAppend(f, p.sector, p.record, ch);
      if ch == [] {
        AdoptOutcome(f.fs.g, f.fs.part.count, disc, fat, dir, used, area, p, f.fs.part.Disc(), f.fs.Table(), f.chain);
        AreaUntouchedBy(f.fs.g, f.fs.part.count, disc, fat, dir, used, area, p, f.fs.part.Disc());
        AdoptedUsed(f.fs.g, f.fs.part.count, disc, fat, dir, used, area, p, f.fs.part.Disc(), f.fs.Table(), f.chain);
        dir := dir[p := f.chain];
      } else {
        NothingKept(area, used, p, disc, fat);
      }
      EditReady(p, limit);
    }

    /** The open file is the one the directory lists, and ready for calls. */
    lemma EditReady(p: Place, limit: nat)
      requires f.Valid() && Consistent(f.fs.g, f.fs.part.count, f.fs.part.Disc(), f.fs.Table(), dir, used, area)
      requires p in dir && p.sector in area && p.sector < f.fs.part.count && p.record < 16 && f.chain == dir[p] != []
      requires f.filePtr == f.fileSize == RecordSize(f.fs.part.Disc()[p.sector], p.record) && f.isOpen && f.canWrite
      requires f.locSector == p.sector && f.locOffset == p.record && f.cache.clusterCount == 0
      requires f.fs.part.Slack() >= Buffers(f.fs.g) + 1 && limit + 512 * f.fs.g.spc <= UINT32
      requires Missing(f.fs.g, |f.chain|, limit) <= |NextOf(f.fs.g, Free(f.fs.Table()), f.chain[|f.chain| - 1])|
      ensures Editing(f, limit) && p in Model().files && Seen(f) == Opened(Model().files[p])
      ensures Model().files[p] == FileInfo(FileBytes(f.fs.g, f.fs.part.Disc(), p, dir[p]), dir[p])
    {
      hide CacheOk, Fat, Partition.Disc, Partition.Outside, Partition.Slack, FileSystem.Table, Partition.Ready;
      hide WellFormed, ChainFrom, Apart, Numbered, ClusterChain.Tracks, Consistent, Contents, FreeBelow, Missing, NextOf, RecordSize, Candidates;
      hide ChainBytes, Sectors;
      ghost var disc, fat, ch := f.fs.part.Disc(), f.fs.Table(), f.chain;
      ConsistentFacts(f.fs.g, f.fs.part.count, disc, fat, dir, used, area, p.sector);
      PlaceApart(f.fs.g, f.fs.part.count, disc, fat, dir, used, area, p);
      ChainOf(f.fs.g, f.fs.part.count, disc, fat, dir, used, area, p);
      LastInRange(f.fs.g.fatType, fat, ch);
      NextIs(f.fs.g, fat, ch[|ch| - 1]);
      CandidatesCount(fat, ch[|ch| - 1]);
      MeasuredSize(f.fs.g, ch, f.fileSize);
    }

    /** fat_countFreeClusters gives the number of free clusters of the users' view. */
    method CountFree() returns (n: nat)
      requires Valid() && f.fs.part.Slack() >= 1
      modifies f.fs.part.io
      ensures Valid() && Elsewhere() && Model() == old(Model()) && n == |Model().free|
    {
      hide CacheOk, Partition.Disc, Partition.Outside, Partition.Slack, FileSystem.Table, Partition.Ready, FreeIn;
      hide WellFormed, Consistent, Contents, FreeBelow;
      FreeCounted(f.fs.Table());
      n := f.fs.CountFreeClusters();
    }

    /** The free clusters, the files' and the directories' are all clusters, after every operation. */
    lemma ClustersAccounted()
      requires Valid()
      ensures |Model().free| + Total(dir) + |used| == f.fs.g.dcc
      ensures forall p :: p in dir <==> p in Model().files
      ensures forall p :: p in dir ==> Model().files[p].chain == dir[p]
    {
      hide CacheOk, Fat, Partition.Disc, Partition.Slack, FileSystem.Table, Partition.Ready, Total;
      ClustersAddUp(f.fs.g.fatType, f.fs.Table(), dir, used);
      hide Consistent, FileBytes, FreeBelow;
    }

    /** Every run of operations on the volume does what it does to the users' view, and leaves it consistent. */
    method Run(ops: seq<VolumeOp>) returns (outs: seq<seq<seq<Byte>>>)
      requires Valid() && f.fs.part.Slack() >= Buffers(f.fs.g) + 1 && AllEnabled(f.fs.g, area, Model(), ops)
      modifies this`dir, f, f.cache, f.fs.part.io, f.fs`freeClusterCount
      ensures Valid() && Elsewhere()
      ensures (Model(), outs) == RunVolume(f.fs.g, old(Model()), ops)
    {
      hide CacheOk, Partition.Disc, Partition.Outside, Partition.Slack, FileSystem.Table, Partition.Ready;
      hide WellFormed, Consistent, Contents, FreeBelow, VolumeStep, Enabled;
      ghost var m := Model();
      outs := [];
      for k := 0 to |ops|
        invariant Valid() && Elsewhere()
        invariant (Model(), outs) == RunVolume(f.fs.g, m, ops[..k])
      {
        assert Enabled(f.fs.g, area, RunVolume(f.fs.g, m, ops[..k]).0, ops[k]);
        var out := Do(ops[k]);
        outs := outs + [out];
        assert ops[..k + 1][..k] == ops[..k];
      }
      assert ops[..|ops|] == ops;
    }

    method Do(op: VolumeOp) returns (out: seq<seq<Byte>>)
      requires Valid() && f.fs.part.Slack() >= Buffers(f.fs.g) + 1 && Enabled(f.fs.g, area, Model(), op)
      modifies this`dir, f, f.cache, f.fs.part.io, f.fs`freeClusterCount
      ensures Valid() && Elsewhere()
      ensures (Model(), out) == VolumeStep(f.fs.g, old(Model()), op)
    {
      hide CacheOk, Partition.Disc, Partition.Outside, Partition.Slack, FileSystem.Table, Partition.Ready;
      hide WellFormed, Consistent, Contents, FreeBelow, Enabled, Edited, Adopted, FirstOf, AreaKept, UsedKept;
      match op
      case Create(p, name) =>
        CreateFile(p, name);
        out := [];
      case Edit(p, fileOps, limit) =>
        out := EditFile(p, fileOps, limit);
      case Delete(p) =>
        DeleteFile(p);
        out := [];
    }
  }

  /** What an edit on an opened file leaves, once the file has been closed. */
  lemma EditModel(g: Geometry, count: nat, disc: seq<Sector>, fat: seq<nat>, dir: map<Place, seq<nat>>,
                  used: set<nat>, area: set<nat>, p: Place, ops: seq<FileOp>,
                  disc1: seq<Sector>, fat': seq<nat>, ch': seq<nat>, fm: FileModel, outs: seq<seq<Byte>>, disc2: seq<Sector>)
    requires Consistent(g, count, disc, fat, dir, used, area) && p in dir && dir[p] != [] && p.sector in area && p.record < 16
    requires Grew(g.fatType, fat, dir[p], fat', ch') && InOrder(fat, dir[p], ch') && OnlyFileChanged(g, ch', disc, disc1)
    requires Measured(g, ch', |fm.content|) && g.spc > 0 && |ch'| == Longer(|dir[p]|, CeilDiv(|fm.content|, 512 * g.spc))
    requires |disc1| == |disc| && p.sector < |disc| && disc2 == disc1[p.sector := WithSize(disc1[p.sector], p.record, |fm.content|)]
    requires ChainBytes(g, disc2, ch')[..|fm.content|] == fm.content
    requires RunModel(Opened(FileInfo(FileBytes(g, disc, p, dir[p]), dir[p])), ops) == (fm, outs)
    ensures Consistent(g, count, disc2, fat', dir[p := ch'], used, area)
    ensures (Abstract(g, disc2, fat', dir[p := ch']), outs) == Edited(g, Abstract(g, disc, fat, dir), p, ops)
    ensures AreaKept(area, p, disc, disc2) && UsedKept(used, fat, fat')
    ensures NamePart(disc2[p.sector], p.record) == NamePart(disc[p.sector], p.record)
  {
    hide Consistent, WithSize, Touched, Contents, Grew, InOrder, Free, WellFormed, AreaKept, UsedKept, Sound, Listed;
    hide ChainBytes, ChainFrom, OnlyFileChanged, Sectors, NamePart, RunModel, FileBytes, Grown, CeilDiv, Longer, Members, Numbered;
    ChainOf(g, count, disc, fat, dir, used, area, p);
    ConsistentFacts(g, count, disc, fat, dir, used, area, p.sector);
    MeasuredSize(g, ch', |fm.content|);
    EditOutcome(g, count, disc, fat, dir, used, area, p, disc1, fat', ch', |fm.content|, disc2);
    GrownIs(g, fat, dir[p], ch', |fm.content|);
    AreaUntouched(g, count, disc2, fat', dir[p := ch'], used, area, p, ch', disc);
    GrewUsed(g, fat, dir, used, p, fat', ch');
  }

  lemma AdoptedUsed(g: Geometry, count: nat, disc: seq<Sector>, fat: seq<nat>, dir: map<Place, seq<nat>>,
                    used: set<nat>, area: set<nat>, p: Place, disc': seq<Sector>, fat': seq<nat>, ch: seq<nat>)
    requires Consistent(g, count, disc, fat, dir, used, area) && FirstTaken(g, fat, disc, p.sector, p.record, ch, fat', disc')
    ensures UsedKept(used, fat, fat')
  {
    hide Consistent, Rest, WithCluster, FirstFreeCluster, UsedKept;
    CreatedUsed(g, count, disc, fat, dir, used, area, p);
  }

  lemma NothingKept(area: set<nat>, used: set<nat>, p: Place, disc: seq<Sector>, fat: seq<nat>)
    ensures AreaKept(area, p, disc, disc) && UsedKept(used, fat, fat)
  {
  }

  lemma MeasuredSize(g: Geometry, ch: seq<nat>, size: nat)
    requires Measured(g, ch, size)
    ensures size < UINT32 && size <= 512 * Sectors(g, ch)
  {
    hide Sectors;
  }

  lemma GrewUsed(g: Geometry, fat: seq<nat>, dir: map<Place, seq<nat>>, used: set<nat>, p: Place, fat': seq<nat>, ch': seq<nat>)
    requires Sound(g.fatType, fat, dir, used) && p in dir && Grew(g.fatType, fat, dir[p], fat', ch') && |fat| == g.dcc + 2
    ensures UsedKept(used, fat, fat')
  {
    assert |fat'| == |fat| && forall c :: 0 <= c < |fat| && c !in ch' ==> fat'[c] == fat[c];
    hide Grew, Sound, ChainFrom;
    GrowKeepsSound(g.fatType, fat, dir, used, p, dir[p], fat', ch');
    SoundData(g, fat', dir[p := ch'], used, p);
    UsedEntries(g.fatType, fat, dir, used, ch', fat');
  }

  lemma CreatedUsed(g: Geometry, count: nat, disc: seq<Sector>, fat: seq<nat>, dir: map<Place, seq<nat>>,
                    used: set<nat>, area: set<nat>, p: Place)
    requires Consistent(g, count, disc, fat, dir, used, area)
    ensures var c := FirstFreeCluster(fat, g.dcc);
            g.dcc <= |fat| && c < |fat| && UsedKept(used, fat, fat[c := GiveEoc(g.fatType)])
  {
    hide WellFormed, DirectoryArea, Listed;
    var c := FirstFreeCluster(fat, g.dcc);
    assert c != 0 ==> 2 <= c < |fat| && fat[c] == 0;
    hide FirstFreeCluster, ChainsDisjoint;
    assert c !in used;
  }

  lemma DeletedUsed(g: Geometry, count: nat, disc: seq<Sector>, fat: seq<nat>, dir: map<Place, seq<nat>>,
                    used: set<nat>, area: set<nat>, p: Place)
    requires Consistent(g, count, disc, fat, dir, used, area) && p in dir
    requires forall i :: 0 <= i < |Visited(dir[p])| ==> Visited(dir[p])[i] < |fat|
    ensures UsedKept(used, fat, Cleared(fat, Visited(dir[p])))
  {
    hide WellFormed, DirectoryArea, Listed, ChainsDisjoint;
    forall i | 0 <= i < |Visited(dir[p])| ensures Visited(dir[p])[i] !in used {}
  }
}
