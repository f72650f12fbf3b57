/** Whole runs of write, seek and read calls on one open file against a byte string with a position. */
module Runs {
  import opened Arith
  import opened Bytes
  import opened Geometries
  import opened FatEntries
  import opened Chains
  import opened Scans
  import opened Sizes
  import opened FileData
  import opened Partitions
  import opened Slots
  import opened Directories
  import opened Fats
  import opened Files

  datatype FileOp = Write(data: seq<Byte>) | Seek(target: nat) | Read(size: nat)

  /** An open file as its user sees it. */
  datatype FileModel = FileModel(content: seq<Byte>, pos: nat)

  /** One call: the file afterwards, and the bytes read. A seek beyond the end is refused. */
  function Step(m: FileModel, op: FileOp): (r: (FileModel, seq<Byte>))
    requires m.pos <= |m.content|
    ensures r.0.pos <= |r.0.content|
  {
    match op
    case Write(data) => (FileModel(Spliced(m.content, m.pos, data), m.pos + |data|), [])
    case Seek(target) => (m.(pos := if target <= |m.content| then target else m.pos), [])
    case Read(size) =>
      var n := ReadLength(|m.content|, m.pos, size);
      (m.(pos := m.pos + n), if n == 0 then [] else m.content[m.pos..m.pos + n])
  }

  /** A run of calls: the file at the end, and what each call read. */
  function RunModel(m: FileModel, ops: seq<FileOp>): (r: (FileModel, seq<seq<Byte>>))
    requires m.pos <= |m.content|
    ensures r.0.pos <= |r.0.content| && |r.1| == |ops|
  {
    if ops == [] then (m, [])
    else
      var (m1, outs) := RunModel(m, ops[..|ops| - 1]);
      var (m2, out) := Step(m1, ops[|ops| - 1]);
      (m2, outs + [out])
  }

  /** What a call needs: writes end at `limit` at most, and a read request does not wrap round. */
  predicate Allowed(m: FileModel, op: FileOp, limit: nat) {
    match op
    case Write(data) => m.pos + |data| <= limit
    case Seek(target) => true
    case Read(size) => m.pos + size < UINT32
  }

  ghost predicate AllAllowed(m: FileModel, ops: seq<FileOp>, limit: nat)
    requires m.pos <= |m.content|
  {
    forall k :: 0 <= k < |ops| ==> Allowed(RunModel(m, ops[..k]).0, ops[k], limit)
  }

  // ---- what a run of writes does to the FAT and to the disc ----

  /** The free clusters below `hi`. */
  ghost function FreeBelow(fat: seq<nat>, hi: int): set<nat> {
    set c: nat | 2 <= c < hi && c < |fat| && fat[c] == 0
  }

  /** The clusters an allocation can still take: the free ones but for cluster dcc + 1. */
  ghost function Allocatable(fat: seq<nat>): set<nat> {
    FreeBelow(fat, |fat| - 1)
  }

  ghost function Members(xs: seq<nat>): set<nat> {
    set i | 0 <= i < |xs| :: xs[i]
  }

  lemma {:induction false} MembersCount(xs: seq<nat>)
    requires Distinct(xs)
    ensures |Members(xs)| == |xs|
  {
    if xs != [] {
      var ys, x := xs[..|xs| - 1], xs[|xs| - 1];
      assert forall i, j :: 0 <= i < j < |ys| ==> ys[i] == xs[i] && ys[j] == xs[j];
      MembersCount(ys);
      assert Members(xs) == Members(ys) + {x};
      assert x !in Members(ys);
    }
  }

  /** There are as many candidates as allocatable clusters, whatever chain is extended. */
  lemma CandidatesCount(fat: seq<nat>, last: nat)
    requires 2 <= last < |fat| && fat[last] != 0
    ensures |Candidates(fat, last, |fat| - 2)| == |Allocatable(fat)|
  {
    var xs := Candidates(fat, last, |fat| - 2);
    CandidatesExact(fat, last, |fat| - 2);
    hide Candidates;
    MembersCount(xs);
    assert forall c :: c in Members(xs) <==> c in xs;
    assert Members(xs) == Allocatable(fat);
  }

  /** Chain `ch` has become `ch'` by taking allocatable clusters; entries of all other clusters are the same. */
  ghost predicate Grew(t: FatType, fat: seq<nat>, ch: seq<nat>, fat': seq<nat>, ch': seq<nat>) {
    && |fat'| == |fat| && ch <= ch' && IsChain(t, fat', ch')
    && (forall i :: |ch| <= i < |ch'| ==> 2 <= ch'[i] < |fat| - 1 && fat[ch'[i]] == 0)
    && (forall c :: 0 <= c < |fat| && c !in ch' ==> fat'[c] == fat[c])
  }

  lemma GrewOn(t: FatType, fat: seq<nat>, ch: seq<nat>, fat1: seq<nat>, ch1: seq<nat>, fat2: seq<nat>, ch2: seq<nat>)
    requires Grew(t, fat, ch, fat1, ch1) && Grew(t, fat1, ch1, fat2, ch2)
    ensures Grew(t, fat, ch, fat2, ch2)
  {
    forall i | |ch1| <= i < |ch2| ensures fat[ch2[i]] == 0 {
      if ch2[i] in ch1 {
        var j :| 0 <= j < |ch1| && ch1[j] == ch2[i];
        ChainEntriesNonZero(t, fat1, ch1, j);
      }
    }
    forall i | |ch| <= i < |ch1| ensures ch2[i] == ch1[i] {}
    forall c | 0 <= c < |fat| && c !in ch2 ensures fat2[c] == fat[c] {
      forall j | 0 <= j < |ch1| ensures ch1[j] != c { assert ch2[j] == ch1[j]; }
    }
  }

  /** The clusters taken are no longer free; nothing else is lost or won. */
  lemma GrewCount(t: FatType, fat: seq<nat>, ch: seq<nat>, fat': seq<nat>, ch': seq<nat>, hi: nat)
    requires Numbered(t, fat) && IsChain(t, fat, ch) && Grew(t, fat, ch, fat', ch') && hi >= |fat| - 1
    ensures |FreeBelow(fat', hi)| == |FreeBelow(fat, hi)| - (|ch'| - |ch|)
  {
    var xs := ch'[|ch|..];
    ChainDistinct(t, fat', ch');
    MembersCount(xs);
    forall c: nat ensures c in FreeBelow(fat', hi) <==> c in FreeBelow(fat, hi) - Members(xs) {
      GrewEntry(t, fat, ch, fat', ch', c);
    }
    assert FreeBelow(fat', hi) == FreeBelow(fat, hi) - Members(xs);
    assert Members(xs) <= FreeBelow(fat, hi);
  }

  lemma GrewEntry(t: FatType, fat: seq<nat>, ch: seq<nat>, fat': seq<nat>, ch': seq<nat>, c: nat)
    requires IsChain(t, fat, ch) && Grew(t, fat, ch, fat', ch')
    ensures c < |fat| ==> (fat'[c] == 0 <==> fat[c] == 0 && c !in Members(ch'[|ch|..]))
  {
    if c in ch' {
      var i :| 0 <= i < |ch'| && ch'[i] == c;
      ChainEntriesNonZero(t, fat', ch', i);
      if i < |ch| {
        ChainEntriesNonZero(t, fat, ch, i);
      } else {
        assert ch'[|ch|..][i - |ch|] == c;
      }
    }
  }

  lemma ChosenBelow(fat: seq<nat>, last: nat, n: nat, i: nat)
    requires 2 <= last < |fat| && fat[last] != 0 && i < |Chosen(fat, last, |fat| - 2, n)|
    ensures var x := Chosen(fat, last, |fat| - 2, n)[i]; 2 <= x < |fat| - 1 && fat[x] == 0
  {
    CandidatesExact(fat, last, |fat| - 2);
    var cands := Candidates(fat, last, |fat| - 2);
    hide Candidates;
    assert cands[i] in cands;
  }

  lemma AllocatedFrame(t: FatType, fat: seq<nat>, ch: seq<nat>, n: nat, fat': seq<nat>, c: nat)
    requires IsChain(t, fat, ch) && Allocated(t, fat, ch, n, fat') && c < |fat|
    requires c !in ch && c !in Chosen(fat, ch[|ch| - 1], |fat| - 2, n)
    ensures |fat'| == |fat| && fat'[c] == fat[c]
  {
    LastInRange(t, fat, ch);
    var last := ch[|ch| - 1];
    var xs := Chosen(fat, last, |fat| - 2, n);
    ChosenFacts(fat, last, |fat| - 2, n);
    hide Chosen, ChainFrom, Extend, Candidates, Distinct, GiveEoc;
    assert last in ch;
    assert last !in xs;
    if n > 0 { ExtendFrame(t, fat, last, xs, c); }
  }

  lemma AllocatedLength(t: FatType, fat: seq<nat>, ch: seq<nat>, n: nat, fat': seq<nat>)
    requires Allocated(t, fat, ch, n, fat')
    ensures |fat'| == |fat| >= 2
  {
    hide Chosen;
  }

  /** An allocation is such a growth. */
  lemma AllocatedGrew(t: FatType, fat: seq<nat>, ch: seq<nat>, n: nat, fat': seq<nat>)
    requires Numbered(t, fat) && IsChain(t, fat, ch) && Allocated(t, fat, ch, n, fat')
    ensures Grew(t, fat, ch, fat', ch + Chosen(fat, ch[|ch| - 1], |fat| - 2, n))
  {
    hide Chosen, ChainFrom, Allocated, Numbered, Candidates, Distinct;
    LastInRange(t, fat, ch);
    GrownChain(t, fat, ch, n, fat');
    var xs := Chosen(fat, ch[|ch| - 1], |fat| - 2, n);
    AllocatedLength(t, fat, ch, n, fat');
    forall i | |ch| <= i < |ch + xs| ensures 2 <= (ch + xs)[i] < |fat| - 1 && fat[(ch + xs)[i]] == 0 {
      ChosenBelow(fat, ch[|ch| - 1], n, i - |ch|);
    }
    forall c | 0 <= c < |fat| && c !in ch + xs ensures fat'[c] == fat[c] {
      AllocatedFrame(t, fat, ch, n, fat', c);
    }
  }

  /** The clusters added to `ch` are the next ones in the order of the sweep. */
  ghost predicate InOrder(fat: seq<nat>, ch: seq<nat>, ch': seq<nat>) {
    && 2 <= |fat| && ch != [] && |ch| <= |ch'|
    && var cands, n := Candidates(fat, ch[|ch| - 1], |fat| - 2), |ch'| - |ch|;
    && n <= |cands| && ch' == ch + cands[..n]
  }

  lemma ChosenInOrder(fat: seq<nat>, ch: seq<nat>, n: nat)
    requires 2 <= |fat| && ch != [] && n <= |Candidates(fat, ch[|ch| - 1], |fat| - 2)|
    ensures InOrder(fat, ch, ch + Chosen(fat, ch[|ch| - 1], |fat| - 2, n))
  {
    hide Candidates;
  }

  lemma StaysInOrder(fat: seq<nat>, ch: seq<nat>)
    requires 2 <= |fat| && ch != []
    ensures InOrder(fat, ch, ch)
  {
    hide Candidates;
  }

  /** Growing twice in order is growing in order. */
  lemma InOrderOn(t: FatType, fat: seq<nat>, ch: seq<nat>, fat1: seq<nat>, ch1: seq<nat>, ch2: seq<nat>)
    requires Numbered(t, fat) && IsChain(t, fat, ch) && Grew(t, fat, ch, fat1, ch1)
    requires InOrder(fat, ch, ch1) && InOrder(fat1, ch1, ch2)
    ensures InOrder(fat, ch, ch2)
  {
    hide Candidates, Grew, ChainFrom, TakenAway, Numbered;
    var last, dcc, n := ch[|ch| - 1], |fat| - 2, |ch1| - |ch|;
    LastInRange(t, fat, ch);
    GrewTakes(t, fat, ch, fat1, ch1);
    TailOf(ch, Candidates(fat, last, dcc)[..n]);
    CandidatesAfter(fat, last, dcc, n, fat1);
    Onwards(ch, Candidates(fat, last, dcc), n, |ch2| - |ch1|);
  }

  lemma TailOf(ch: seq<nat>, xs: seq<nat>)
    requires ch != []
    ensures var ch' := ch + xs; ch'[|ch|..] == xs && ch'[|ch'| - 1] == Tail(ch[|ch| - 1], xs)
  {
  }

  lemma Onwards(ch: seq<nat>, cands: seq<nat>, n: nat, m: nat)
    requires n + m <= |cands|
    ensures ch + cands[..n] + cands[n..][..m] == ch + cands[..n + m]
  {
    assert cands[..n] + cands[n..][..m] == cands[..n + m];
  }

  lemma GrewTakes(t: FatType, fat: seq<nat>, ch: seq<nat>, fat': seq<nat>, ch': seq<nat>)
    requires IsChain(t, fat, ch) && Grew(t, fat, ch, fat', ch')
    ensures TakenAway(fat, ch'[|ch|..], fat') && |fat'| == |fat|
  {
    forall c | 2 <= c < |fat| ensures fat'[c] == 0 <==> fat[c] == 0 && c !in ch'[|ch|..] {
      GrewEntry(t, fat, ch, fat', ch', c);
      assert c in Members(ch'[|ch|..]) <==> c in ch'[|ch|..];
    }
  }

  /** Writing up to `t` and later up to `limit` takes no more clusters than writing up to `limit`. */
  lemma MissingAfter(g: Geometry, n: nat, t: nat, limit: nat)
    requires g.spc > 0 && t <= limit
    ensures var need := Missing(g, n, t);
            && need <= Missing(g, n, limit)
            && Missing(g, n + need, limit) == Missing(g, n, limit) - need
            && n + need == Longer(n, CeilDiv(t, 512 * g.spc))
  {
    CeilDivMono(t, limit, 512 * g.spc);
  }

  function Longer(a: nat, b: nat): nat { if a < b then b else a }

  /** How many clusters a file has after writes that leave it with `size` bytes. */
  lemma ClustersAfter(g: Geometry, ch: seq<nat>, fileSize: nat, t: nat, n: nat)
    requires g.spc > 0 && Measured(g, ch, fileSize) && n == Longer(|ch|, CeilDiv(t, 512 * g.spc))
    ensures n == Longer(|ch|, CeilDiv(if t > fileSize then t else fileSize, 512 * g.spc))
  {
    MeasuredClusters(g, ch, fileSize);
    CeilDivLeast(fileSize, 512 * g.spc, |ch|);
    hide Measured, CeilDiv;
    if t <= fileSize { CeilDivMono(t, fileSize, 512 * g.spc); }
  }

  /** Growing further, the count stays that of the final size. */
  lemma ClustersOn(n: nat, c1: nat, c2: nat)
    requires c1 <= c2
    ensures Longer(Longer(n, c1), c2) == Longer(n, c2)
  {
  }

  lemma ChangedOn(g: Geometry, ch1: seq<nat>, ch2: seq<nat>, d0: seq<Sector>, d1: seq<Sector>, d2: seq<Sector>)
    requires ch1 <= ch2 && OnlyFileChanged(g, ch1, d0, d1) && OnlyFileChanged(g, ch2, d1, d2)
    ensures OnlyFileChanged(g, ch2, d0, d2)
  {
    forall s | 0 <= s < |d0| && OnChain(g, ch1, s) ensures OnChain(g, ch2, s) { OnLonger(g, ch1, ch2, s); }
  }

  lemma SectorSame(g: Geometry, ch1: seq<nat>, ch2: seq<nat>, q: nat)
    requires ch1 <= ch2 && q < Sectors(g, ch1)
    ensures q < Sectors(g, ch2) && SectorOf(g, ch2, q) == SectorOf(g, ch1, q)
  {
    MulMono(|ch1|, |ch2|, g.spc);
    SplitBelow(q, |ch1|, g.spc);
    hide ClusterToSector;
  }

  lemma OnLonger(g: Geometry, ch1: seq<nat>, ch2: seq<nat>, s: nat)
    requires ch1 <= ch2 && OnChain(g, ch1, s)
    ensures OnChain(g, ch2, s)
  {
    hide Sectors, SectorOf;
    var q :| 0 <= q < Sectors(g, ch1) && SectorOf(g, ch1, q) == s;
    SectorSame(g, ch1, ch2, q);
  }

  // ---- the calls on an open file ----

  /** The file is open for writing, its position is inside it, and there are clusters enough for `limit` bytes. */
  ghost predicate Editing(f: File, limit: nat)
    reads f, f.cache, f.fs.part.io
  {
    && f.Valid() && f.CountKnown() && f.Placed() && f.chain != [] && f.isOpen && f.canWrite && f.filePtr <= f.fileSize
    && f.fs.part.Slack() >= Buffers(f.fs.g) + 1 && limit + 512 * f.fs.g.spc <= UINT32
    && Missing(f.fs.g, |f.chain|, limit) <= |Allocatable(f.fs.Table())|
  }

  ghost function Seen(f: File): (m: FileModel)
    requires f.Valid() && f.filePtr <= f.fileSize
    reads f, f.cache, f.fs.part.io
    ensures m.pos <= |m.content|
  {
    FileModel(f.Content(), f.filePtr)
  }

  /** What calls on an open file leave behind: its chain has at most grown, by what its size calls for, and nothing
      outside the first FAT and its clusters has changed. */
  twostate predicate Progress(f: File)
    reads f, f.cache, f.fs.part.io
  {
    && old(f.Valid()) && f.Valid()
    && Grew(f.fs.g.fatType, old(f.fs.Table()), old(f.chain), f.fs.Table(), f.chain)
    && InOrder(old(f.fs.Table()), old(f.chain), f.chain)
    && |f.chain| == Longer(|old(f.chain)|, CeilDiv(f.fileSize, 512 * f.fs.g.spc))
    && OnlyFileChanged(f.fs.g, f.chain, old(f.fs.part.Disc()), f.fs.part.Disc())
    && f.locSector == old(f.locSector) && f.locOffset == old(f.locOffset) && f.fileSize >= old(f.fileSize)
    && f.fs.part.Outside() == old(f.fs.part.Outside())
    && f.fs.part.io.held == old(f.fs.part.io.held) && f.fs.part.Slack() == old(f.fs.part.Slack())
  }

  method DoWrite(f: File, data: seq<Byte>, ghost limit: nat)
    requires Editing(f, limit) && f.filePtr + |data| <= limit
    modifies f.fs.part.io, f.cache, f.fs`freeClusterCount, f`chain, f`fileSize, f`filePtr
    ensures Editing(f, limit) && Progress(f)
    ensures Seen(f) == Step(old(Seen(f)), Write(data)).0
  {
    hide CacheOk, Fat, Partition.Disc, Partition.Outside, Partition.Slack, FileSystem.Table, Partition.Ready, FileSystem.Around;
    hide WellFormed, ChainBytes, ClusterChain.Tracks, ChainFrom, Sectors, Apart, Missing, Chosen, Candidates, Allocated;
    hide Measured, OnlyFileChanged, Grew, InOrder, FreeBelow, CeilDiv, Distinct, File.WroteAt, Int16, Shortfall, Links, Numbered;
    ghost var fat, ch, t := f.fs.Table(), f.chain, f.filePtr + |data|;
    SpcPositive(f.fs.g, f.fs.part.count);
    LastInRange(f.fs.g.fatType, fat, ch);
    CandidatesCount(fat, ch[|ch| - 1]);
    MissingAfter(f.fs.g, |ch|, t, limit);
    EnoughSucceeds(fat, ch[|ch| - 1], f.fs.g.dcc, Missing(f.fs.g, |ch|, t));
    var r := f.Write(data);
    AllocatedGrew(f.fs.g.fatType, fat, ch, Missing(f.fs.g, |ch|, t), f.fs.Table());
    ChosenInOrder(fat, ch, Missing(f.fs.g, |ch|, t));
    GrewCount(f.fs.g.fatType, fat, ch, f.fs.Table(), f.chain, |fat| - 1);
    ClustersAfter(f.fs.g, ch, old(f.fileSize), t, |f.chain|);
  }

  /** Nothing has happened. */
  lemma NoProgress(g: Geometry, fat: seq<nat>, ch: seq<nat>, fileSize: nat, disc: seq<Sector>)
    requires g.spc > 0 && 2 <= |fat| && IsChain(g.fatType, fat, ch) && Measured(g, ch, fileSize)
    ensures Grew(g.fatType, fat, ch, fat, ch) && InOrder(fat, ch, ch)
    ensures |ch| == Longer(|ch|, CeilDiv(fileSize, 512 * g.spc))
    ensures OnlyFileChanged(g, ch, disc, disc)
  {
    MeasuredClusters(g, ch, fileSize);
    CeilDivLeast(fileSize, 512 * g.spc, |ch|);
    hide CeilDiv, Measured;
    StaysInOrder(fat, ch);
    hide InOrder;
  }

  method DoRead(f: File, size: nat, ghost limit: nat) returns (out: seq<Byte>)
    requires Editing(f, limit) && f.filePtr + size < UINT32
    modifies f.fs.part.io, f.cache, f`filePtr
    ensures Editing(f, limit) && Progress(f)
    ensures (Seen(f), out) == Step(old(Seen(f)), Read(size))
  {
    hide CacheOk, Fat, Partition.Disc, Partition.Outside, Partition.Slack, FileSystem.Table, Partition.Ready, Rest;
    hide WellFormed, ChainBytes, ClusterChain.Tracks, ChainFrom, Sectors, Apart, Missing;
    hide Measured, OnlyFileChanged, Grew, InOrder, Allocatable, CeilDiv;
    SpcPositive(f.fs.g, f.fs.part.count);
    NoProgress(f.fs.g, f.fs.Table(), f.chain, f.fileSize, f.fs.part.Disc());
    var buf := new Byte[size];
    var n := f.Read(size, buf);
    out := buf[..n];
  }

  /** One call on the open file does what it does to the byte string. */
  method Apply(f: File, op: FileOp, ghost limit: nat) returns (out: seq<Byte>)
    requires Editing(f, limit) && Allowed(Seen(f), op, limit)
    modifies f.fs.part.io, f.cache, f.fs`freeClusterCount, f`chain, f`fileSize, f`filePtr
    ensures Editing(f, limit) && Progress(f)
    ensures (Seen(f), out) == Step(old(Seen(f)), op)
  {
    hide Partition.Disc, Partition.Outside, Partition.Slack, FileSystem.Table, Partition.Ready, FileSystem.Around;
    hide WellFormed, ChainBytes, ClusterChain.Tracks, ChainFrom, Sectors, Apart, Missing;
    hide Measured, OnlyFileChanged, Grew, InOrder, Allocatable, CeilDiv;
    match op
    case Write(data) =>
      DoWrite(f, data, limit);
      out := [];
    case Seek(target) =>
      SpcPositive(f.fs.g, f.fs.part.count);
      NoProgress(f.fs.g, f.fs.Table(), f.chain, f.fileSize, f.fs.part.Disc());
      var r := f.SetPos(target);
      out := [];
    case Read(size) =>
      out := DoRead(f, size, limit);
  }

  /** Every run of calls on the open file does what it does to the byte string, call by call. */
  method Play(f: File, ops: seq<FileOp>, ghost limit: nat) returns (outs: seq<seq<Byte>>)
    requires Editing(f, limit) && AllAllowed(Seen(f), ops, limit)
    modifies f.fs.part.io, f.cache, f.fs`freeClusterCount, f`chain, f`fileSize, f`filePtr
    ensures Editing(f, limit) && Progress(f)
    ensures (Seen(f), outs) == RunModel(old(Seen(f)), ops)
  {
    hide Partition.Disc, Partition.Outside, Partition.Slack, FileSystem.Table, Partition.Ready, FileSystem.Around;
    hide WellFormed, ChainBytes, ClusterChain.Tracks, ChainFrom, Sectors, Apart, Missing;
    hide Measured, OnlyFileChanged, Grew, InOrder, Allocatable, CeilDiv, Step, Longer, Allowed, File.CountKnown, File.Placed;
    ghost var m, fat, ch, disc := Seen(f), f.fs.Table(), f.chain, f.fs.part.Disc();
    outs := [];
    Positive(f);
    NoProgress(f.fs.g, fat, ch, f.fileSize, disc);
    for k := 0 to |ops|
      invariant Editing(f, limit) && Progress(f)
      invariant (Seen(f), outs) == RunModel(m, ops[..k])
    {
      ghost var fat1, ch1, size1, disc1 := f.fs.Table(), f.chain, f.fileSize, f.fs.part.Disc();
      assert Allowed(RunModel(m, ops[..k]).0, ops[k], limit);
      var out := Apply(f, ops[k], limit);
      outs := outs + [out];
      Onward(f.fs.g, fat, ch, disc, fat1, ch1, size1, disc1, f.fs.Table(), f.chain, f.fileSize, f.fs.part.Disc());
      assert ops[..k + 1][..k] == ops[..k];
    }
    assert ops[..|ops|] == ops;
  }

  lemma Positive(f: File)
    requires f.fs.Ok()
    ensures f.fs.g.spc > 0
  {
    hide CacheOk;
  }

  /** Progress on top of progress. */
  lemma Onward(g: Geometry, fat: seq<nat>, ch: seq<nat>, disc: seq<Sector>,
               fat1: seq<nat>, ch1: seq<nat>, size1: nat, disc1: seq<Sector>,
               fat2: seq<nat>, ch2: seq<nat>, size2: nat, disc2: seq<Sector>)
    requires g.spc > 0 && size1 <= size2
    requires Numbered(g.fatType, fat) && IsChain(g.fatType, fat, ch)
    requires Grew(g.fatType, fat, ch, fat1, ch1) && Grew(g.fatType, fat1, ch1, fat2, ch2)
    requires InOrder(fat, ch, ch1) && InOrder(fat1, ch1, ch2)
    requires |ch1| == Longer(|ch|, CeilDiv(size1, 512 * g.spc)) && |ch2| == Longer(|ch1|, CeilDiv(size2, 512 * g.spc))
    requires OnlyFileChanged(g, ch1, disc, disc1) && OnlyFileChanged(g, ch2, disc1, disc2)
    ensures Grew(g.fatType, fat, ch, fat2, ch2) && InOrder(fat, ch, ch2)
    ensures |ch2| == Longer(|ch|, CeilDiv(size2, 512 * g.spc))
    ensures OnlyFileChanged(g, ch2, disc, disc2)
  {
    GrewOn(g.fatType, fat, ch, fat1, ch1, fat2, ch2);
    InOrderOn(g.fatType, fat, ch, fat1, ch1, ch2);
    CeilDivMono(size1, size2, 512 * g.spc);
    ClustersOn(|ch|, CeilDiv(size1, 512 * g.spc), CeilDiv(size2, 512 * g.spc));
    assert ch1 <= ch2;
    hide Grew, InOrder, ChainFrom, OnlyFileChanged, CeilDiv;
    ChangedOn(g, ch1, ch2, disc, disc1, disc2);
  }

  // ---- what is written is what is read ----

  /** Only writes. */
  function Writes(chunks: seq<seq<Byte>>): seq<FileOp> {
    seq(|chunks|, i requires 0 <= i < |chunks| => Write(chunks[i]))
  }

  /** Only reads. */
  function Reads(sizes: seq<nat>): seq<FileOp> {
    seq(|sizes|, i requires 0 <= i < |sizes| => Read(sizes[i]))
  }

  function Flatten<T>(ss: seq<seq<T>>): seq<T> {
    if ss == [] then [] else Flatten(ss[..|ss| - 1]) + ss[|ss| - 1]
  }

  function Sum(ns: seq<nat>): nat {
    if ns == [] then 0 else Sum(ns[..|ns| - 1]) + ns[|ns| - 1]
  }

  /** Writing at the end of a file, in whatever pieces, appends their concatenation. */
  lemma {:induction false} WritesAppend(s: seq<Byte>, chunks: seq<seq<Byte>>)
    ensures RunModel(FileModel(s, |s|), Writes(chunks)).0 == FileModel(s + Flatten(chunks), |s| + |Flatten(chunks)|)
  {
    if chunks != [] {
      var n := |chunks| - 1;
      WritesAppend(s, chunks[..n]);
      assert Writes(chunks)[..n] == Writes(chunks[..n]);
      assert Spliced(s + Flatten(chunks[..n]), |s + Flatten(chunks[..n])|, chunks[n]) == s + Flatten(chunks[..n]) + chunks[n];
      assert s + Flatten(chunks[..n]) + chunks[n] == s + (Flatten(chunks[..n]) + chunks[n]);
    } else {
      assert s + Flatten(chunks) == s;
    }
  }

  /** Reading from the start, in whatever pieces, gives the file up to the end of the requests or of the file. */
  lemma {:induction false} ReadsGather(s: seq<Byte>, sizes: seq<nat>)
    ensures var n := if Sum(sizes) < |s| then Sum(sizes) else |s|;
            var (m, outs) := RunModel(FileModel(s, 0), Reads(sizes));
            m == FileModel(s, n) && Flatten(outs) == s[..n]
  {
    if sizes == [] {
      assert Reads(sizes) == [];
    } else {
      var k := |sizes| - 1;
      ReadsGather(s, sizes[..k]);
      assert Reads(sizes)[..k] == Reads(sizes[..k]);
      var (m, outs) := RunModel(FileModel(s, 0), Reads(sizes[..k]));
      var (m', out) := Step(m, Read(sizes[k]));
      assert (outs + [out])[..k] == outs;
      GatherOn(s, if Sum(sizes[..k]) < |s| then Sum(sizes[..k]) else |s|, sizes[k]);
    }
  }

  lemma GatherOn(s: seq<Byte>, pos: nat, size: nat)
    requires pos <= |s|
    ensures var n := if pos + size < |s| then pos + size else |s|;
            var (m, out) := Step(FileModel(s, pos), Read(size));
            m == FileModel(s, n) && s[..pos] + out == s[..n]
  {
  }

  /** A run can be cut in two. */
  lemma {:induction false} RunSplit(m: FileModel, a: seq<FileOp>, b: seq<FileOp>)
    requires m.pos <= |m.content|
    ensures RunModel(m, a + b).0 == RunModel(RunModel(m, a).0, b).0
    ensures RunModel(m, a + b).1 == RunModel(m, a).1 + RunModel(RunModel(m, a).0, b).1
  {
    if b == [] {
      assert a + b == a;
    } else {
      var k := |b| - 1;
      RunSplit(m, a, b[..k]);
      assert (a + b)[..|a + b| - 1] == a + b[..k];
    }
  }

  lemma {:induction false} FlattenPrefix<T>(ss: seq<seq<T>>, k: nat)
    requires k <= |ss|
    ensures |Flatten(ss[..k])| <= |Flatten(ss)|
    decreases |ss| - k
  {
    if k < |ss| {
      FlattenPrefix(ss, k + 1);
      assert ss[..k + 1][..k] == ss[..k];
    } else {
      assert ss[..k] == ss;
    }
  }

  /** Appending pieces is allowed as far as their total length is. */
  lemma WritesAllowed(s: seq<Byte>, chunks: seq<seq<Byte>>, limit: nat)
    requires |s| + |Flatten(chunks)| <= limit
    ensures AllAllowed(FileModel(s, |s|), Writes(chunks), limit)
  {
    var m, ops := FileModel(s, |s|), Writes(chunks);
    forall k | 0 <= k < |ops| ensures Allowed(RunModel(m, ops[..k]).0, ops[k], limit) {
      assert ops[..k] == Writes(chunks[..k]);
      WritesAppend(s, chunks[..k]);
      FlattenPrefix(chunks, k + 1);
      assert chunks[..k + 1][..k] == chunks[..k];
    }
  }

  /** Reading from the start is allowed as long as no single request wraps round. */
  lemma ReadsAllowed(s: seq<Byte>, pos: nat, sizes: seq<nat>, limit: nat)
    requires pos <= |s| && forall i :: 0 <= i < |sizes| ==> |s| + sizes[i] < UINT32
    ensures AllAllowed(FileModel(s, pos), [Seek(0)] + Reads(sizes), limit)
  {
    var m, ops := FileModel(s, pos), [Seek(0)] + Reads(sizes);
    forall k | 0 <= k < |ops| ensures Allowed(RunModel(m, ops[..k]).0, ops[k], limit) {
      if k > 0 {
        assert ops[..k] == [Seek(0)] + Reads(sizes[..k - 1]);
        RunSplit(m, [Seek(0)], Reads(sizes[..k - 1]));
        SeekStart(s, pos);
        ReadsGather(s, sizes[..k - 1]);
      }
    }
  }

  lemma SeekStart(s: seq<Byte>, pos: nat)
    requires pos <= |s|
    ensures RunModel(FileModel(s, pos), [Seek(0)]).0 == FileModel(s, 0)
    ensures RunModel(FileModel(s, pos), [Seek(0)]).1 == [[]]
  {
    var m := FileModel(s, pos);
    assert [Seek(0)][..0] == [];
    assert RunModel(m, []) == (m, []);
    assert Step(m, Seek(0)) == (FileModel(s, 0), []);
  }

  /** A seek to the start, then reads in whatever pieces that ask for the whole file: the whole file. */
  lemma SeekThenReads(s: seq<Byte>, pos: nat, sizes: seq<nat>)
    requires pos <= |s| <= Sum(sizes)
    ensures var (m, outs) := RunModel(FileModel(s, pos), [Seek(0)] + Reads(sizes));
            m == FileModel(s, |s|) && Flatten(outs[1..]) == s
  {
    SeekStart(s, pos);
    RunSplit(FileModel(s, pos), [Seek(0)], Reads(sizes));
    ReadsGather(s, sizes);
    var outs := RunModel(FileModel(s, 0), Reads(sizes)).1;
    assert ([[]] + outs)[1..] == outs && s[..|s|] == s;
  }

  /** Whatever is written in pieces to an empty file is read back after a seek to the start, in whatever pieces. */
  lemma WriteThenRead(chunks: seq<seq<Byte>>, sizes: seq<nat>)
    requires Sum(sizes) >= |Flatten(chunks)|
    ensures var ops := Writes(chunks) + ([Seek(0)] + Reads(sizes));
            Flatten(RunModel(FileModel([], 0), ops).1[|chunks| + 1..]) == Flatten(chunks)
  {
    var m, s := FileModel([], 0), Flatten(chunks);
    WritesAppend([], chunks);
    assert [] + s == s;
    RunSplit(m, Writes(chunks), [Seek(0)] + Reads(sizes));
    SeekThenReads(s, |s|, sizes);
    var first, later := RunModel(m, Writes(chunks)).1, RunModel(FileModel(s, |s|), [Seek(0)] + Reads(sizes)).1;
    assert (first + later)[|chunks| + 1..] == later[1..];
  }
}
