/** Several files open on one volume at the same time: calls on one leave the others' cursors, counts and bytes right. */
module OpenFiles {
  import opened Bytes
  import opened Geometries
  import opened FatEntries
  import opened Chains
  import opened Scans
  import opened Sizes
  import opened FileData
  import opened Partitions
  import opened Slots
  import opened Fats
  import opened Files
  import opened Runs
  import opened Volumes

  // ---- what a call on one file leaves of another ----

  /** The other file's chain, its bytes and the places of both directory records, as one file's chain `own` grows to
      `own'`: the other chain stays a chain with the same bytes, and neither meets the other or a record. */
  lemma Bystander(g: Geometry, count: nat, fat: seq<nat>, own: seq<nat>, disc: seq<Sector>, fat': seq<nat>, own': seq<nat>,
                  disc': seq<Sector>, other: seq<nat>)
    requires WellFormed(g, count) && |disc| == count && |fat| == g.dcc + 2 && Numbered(g.fatType, fat)
    requires Grew(g.fatType, fat, own, fat', own') && OnlyFileChanged(g, own', disc, disc')
    requires IsChain(g.fatType, fat, other) && Separate(other, own) && Separate(own, other)
    ensures IsChain(g.fatType, fat', other) && ChainBytes(g, disc', other) == ChainBytes(g, disc, other)
    ensures Separate(other, own') && Separate(own', other)
  {
    BystanderSeparate(g.fatType, fat, own, fat', own', other);
    assert IsChain(g.fatType, fat', own') && |fat'| == |fat|;
    forall i | 0 <= i < |other| ensures fat'[other[i]] == fat[other[i]] { assert other[i] !in own'; }
    hide Grew, OnlyFileChanged, WellFormed, ChainBytes;
    ChainFrame(g.fatType, fat, fat', other);
    ChainIsData(g, fat, other);
    ChainIsData(g, fat', own');
    OtherChainKept(g, count, own', other, disc, disc');
  }

  lemma BystanderSeparate(t: FatType, fat: seq<nat>, own: seq<nat>, fat': seq<nat>, own': seq<nat>, other: seq<nat>)
    requires Grew(t, fat, own, fat', own') && IsChain(t, fat, other) && Separate(other, own)
    ensures Separate(other, own') && Separate(own', other)
  {
    forall i, j | 0 <= i < |other| && 0 <= j < |own'| ensures other[i] != own'[j] {
      ChainEntriesNonZero(t, fat, other, i);
      if j < |own| { assert own[j] == own'[j] && other[i] !in own; }
    }
  }

  /** A place apart from free clusters and from a chain stays apart from the free ones and from what the chain becomes. */
  lemma StaysApart(g: Geometry, fat: seq<nat>, own: seq<nat>, fat': seq<nat>, own': seq<nat>, other: seq<nat>, s: nat)
    requires IsChain(g.fatType, fat, own) && Grew(g.fatType, fat, own, fat', own') && Apart(g, fat, own, s) && Apart(g, fat, other, s)
    ensures Apart(g, fat', own', s) && Apart(g, fat', other, s)
  {
    hide InCluster;
    assert forall k :: 0 <= k < |own| ==> own'[k] in own;
    forall c | 2 <= c < |fat'| && (c in own' || c in other || fat'[c] == 0) ensures !InCluster(g, c, s) {
      GrewEntry(g.fatType, fat, own, fat', own', c);
      if c in own' && c !in own {
        var i :| 0 <= i < |own'| && own'[i] == c;
        assert fat[c] == 0;
      }
    }
  }

  // ---- several open files ----

  /** The part of a file's state that is in its object and its cursor: a correct cursor, a known count or none, a position
      inside the file, open for writing. */
  ghost predicate Local(f: File)
    reads f, f.cache
  {
    && f.cache.Tracks(f.chain) && f.CountKnown() && Measured(f.fs.g, f.chain, f.fileSize)
    && f.chain != [] && f.isOpen && f.canWrite && f.filePtr <= f.fileSize && f.locOffset < 16
  }

  /** The part that is on the disc: the chain is one, and the record is on no cluster of it nor on a free one. */
  ghost predicate OnDisc(g: Geometry, count: nat, fat: seq<nat>, ch: seq<nat>, s: nat) {
    IsChain(g.fatType, fat, ch) && Apart(g, fat, ch, s) && g.reserved + g.fatSectors <= s < count
  }

  /** A file open for writing; whether there are clusters enough is left open. */
  ghost predicate Working(f: File)
    reads f, f.cache, f.fs.part.io
  {
    Local(f) && f.fs.Ok() && OnDisc(f.fs.g, f.fs.part.count, f.fs.Table(), f.chain, f.locSector)
  }

  /** What the user of a file sees. */
  ghost function View(f: File): (m: FileModel)
    requires Working(f)
    reads f, f.cache, f.fs.part.io
    ensures m == Seen(f) && m.pos <= |m.content|
  {
    FileModel(ChainBytes(f.fs.g, f.fs.part.Disc(), f.chain)[..f.fileSize], f.filePtr)
  }

  /** Two chains that do not meet; the record at `s` is on no cluster of the first. */
  ghost predicate Foreign(g: Geometry, fat: seq<nat>, ch: seq<nat>, ch': seq<nat>, s: nat) {
    Separate(ch, ch') && Apart(g, fat, ch, s)
  }

  /** Two files on one volume that have nothing in common. */
  ghost predicate Pair(a: File, b: File)
    reads a, b, a.fs.part.io
  {
    a.fs == b.fs && a != b && a.cache != b.cache && a.fs.Ok() && Foreign(a.fs.g, a.fs.Table(), a.chain, b.chain, b.locSector)
  }

  /** What a call on one file, whose chain `own` has become `own'`, leaves of another and of the record of a third. */
  lemma Undisturbed(g: Geometry, count: nat, fat: seq<nat>, own: seq<nat>, disc: seq<Sector>, fat': seq<nat>, own': seq<nat>,
                    disc': seq<Sector>, sOwn: nat, other: seq<nat>, s: nat)
    requires WellFormed(g, count) && |disc| == count && |fat| == g.dcc + 2 && Numbered(g.fatType, fat)
    requires IsChain(g.fatType, fat, own) && Grew(g.fatType, fat, own, fat', own') && OnlyFileChanged(g, own', disc, disc')
    requires OnDisc(g, count, fat, own, sOwn) && OnDisc(g, count, fat, other, s)
    requires Foreign(g, fat, own, other, s) && Foreign(g, fat, other, own, sOwn)
    ensures OnDisc(g, count, fat', other, s) && ChainBytes(g, disc', other) == ChainBytes(g, disc, other)
    ensures Foreign(g, fat', own', other, s) && Foreign(g, fat', other, own', sOwn)
  {
    hide WellFormed, ChainFrom, Apart, Separate, Grew, OnlyFileChanged, Numbered, ChainBytes;
    Bystander(g, count, fat, own, disc, fat', own', disc', other);
    StaysApart(g, fat, own, fat', own', other, s);
    StaysApart(g, fat, own, fat', own', other, sOwn);
  }

  lemma StillForeign(g: Geometry, count: nat, fat: seq<nat>, own: seq<nat>, fat': seq<nat>, own': seq<nat>, b: seq<nat>, c: seq<nat>, s: nat)
    requires IsChain(g.fatType, fat, own) && Grew(g.fatType, fat, own, fat', own')
    requires Foreign(g, fat, own, c, s) && Foreign(g, fat, b, c, s)
    ensures Foreign(g, fat', b, c, s)
  {
    hide ChainFrom, Apart, Separate, Grew;
    StaysApart(g, fat, own, fat', own', b, s);
  }

  /** How many clusters the files together may still need for their limits. */
  ghost function Demand(g: Geometry, lengths: seq<nat>, limits: seq<nat>): nat
    requires |lengths| == |limits|
  {
    var n := |lengths| - 1;
    if n < 0 then 0 else Demand(g, lengths[..n], limits[..n]) + Missing(g, lengths[n], limits[n])
  }

  lemma {:induction false} DemandUpdate(g: Geometry, lengths: seq<nat>, limits: seq<nat>, i: nat, len: nat)
    requires |lengths| == |limits| && i < |lengths|
    ensures Demand(g, lengths[i := len], limits)
         == Demand(g, lengths, limits) + Missing(g, len, limits[i]) - Missing(g, lengths[i], limits[i])
    ensures Missing(g, lengths[i], limits[i]) <= Demand(g, lengths, limits)
  {
    hide Missing;
    var n := |lengths| - 1;
    if i < n {
      DemandUpdate(g, lengths[..n], limits[..n], i, len);
      assert lengths[i := len][..n] == lengths[..n][i := len];
    } else {
      assert lengths[i := len][..n] == lengths[..n];
    }
  }

  ghost function Lengths(files: seq<File>): (s: seq<nat>)
    reads set k | 0 <= k < |files| :: files[k]
    ensures |s| == |files|
    ensures forall k :: 0 <= k < |files| ==> s[k] == |files[k].chain|
  {
    if files == [] then [] else Lengths(files[..|files| - 1]) + [|files[|files| - 1].chain|]
  }

  /** All files work, and no two have anything in common. */
  ghost predicate AllWorking(fs: FileSystem, files: seq<File>)
    reads fs.part.io, set k | 0 <= k < |files| :: files[k], set k | 0 <= k < |files| :: files[k].cache
  {
    && (forall i :: 0 <= i < |files| ==> files[i].fs == fs && Working(files[i]))
    && (forall i, j :: 0 <= i < |files| && 0 <= j < |files| && i != j ==> Pair(files[i], files[j]))
  }

  /** All files are open for writing on volume `fs`, no two have anything in common, and together they find clusters enough
      for their limits. */
  ghost predicate Together(fs: FileSystem, files: seq<File>, limits: seq<nat>)
    reads fs.part.io, set k | 0 <= k < |files| :: files[k], set k | 0 <= k < |files| :: files[k].cache
  {
    && |limits| == |files| && fs.Ok() && fs.part.Slack() >= Buffers(fs.g) + 1
    && AllWorking(fs, files) && (forall i :: 0 <= i < |files| ==> limits[i] + 512 * fs.g.spc <= UINT32)
    && Demand(fs.g, Lengths(files), limits) <= |Allocatable(fs.Table())|
  }

  lemma Ready(f: File, limit: nat)
    requires Working(f) && f.fs.part.Slack() >= Buffers(f.fs.g) + 1 && limit + 512 * f.fs.g.spc <= UINT32
    ensures f.fs.g.spc > 0 && Measured(f.fs.g, f.chain, f.fileSize) && f.Valid() && f.filePtr <= f.fileSize
    ensures |Seen(f).content| == f.fileSize && Numbered(f.fs.g.fatType, f.fs.Table())
    ensures Missing(f.fs.g, |f.chain|, limit) <= |Allocatable(f.fs.Table())| ==> Editing(f, limit)
  {
    hide CacheOk, Fat, Partition.Disc, Partition.Slack, FileSystem.Table, Partition.Ready, ChainBytes, ClusterChain.Tracks;
    hide ChainFrom, Sectors, Apart, Missing, FreeBelow;
    SpcPositive(f.fs.g, f.fs.part.count);
    hide WellFormed;
  }

  lemma Worked(f: File, limit: nat)
    requires Editing(f, limit)
    ensures Working(f) && |Seen(f).content| == f.fileSize
  {
    hide CacheOk, Fat, Partition.Disc, Partition.Slack, FileSystem.Table, Partition.Ready, ChainBytes, ClusterChain.Tracks;
    hide ChainFrom, Sectors, Apart, Missing, FreeBelow, WellFormed;
  }

  /** One call on one of the files, `a`, does to it what it does to the byte string, and nothing to the others. */
  method Call(fs: FileSystem, files: seq<File>, i: nat, a: File, op: FileOp, ghost limits: seq<nat>) returns (out: seq<Byte>)
    requires Together(fs, files, limits) && i < |files| && a == files[i] && Allowed(View(a), op, limits[i])
    modifies fs.part.io, a.cache, fs`freeClusterCount, a`chain, a`fileSize, a`filePtr
    ensures Together(fs, files, limits)
    ensures (View(a), out) == Step(old(View(a)), op)
    ensures forall j :: 0 <= j < |files| && j != i ==> View(files[j]) == old(View(files[j]))
  {
    hide CacheOk, Fat, Partition.Disc, Partition.Outside, Partition.Slack, FileSystem.Table, Partition.Ready, FileSystem.Around;
    hide ChainBytes, ClusterChain.Tracks, ChainFrom, Sectors, Apart, Measured, OnlyFileChanged, Grew, InOrder, CeilDiv, Separate;
    hide Missing, FreeBelow, Demand, WellFormed, Step, Allowed, Numbered, Foreign, Local, Editing, File.Valid;
    Ready(a, limits[i]);
    ghost var fat, lengths, ch, m, disc := fs.Table(), Lengths(files), a.chain, View(a), fs.part.Disc();
    DemandUpdate(fs.g, lengths, limits, i, |ch|);
    out := Apply(a, op, limits[i]);
    Worked(a, limits[i]);
    forall j | 0 <= j < |files| && j != i
      ensures Working(files[j]) && View(files[j]) == old(View(files[j])) && Pair(a, files[j]) && Pair(files[j], a)
    {
      var b := files[j];
      Undisturbed(fs.g, fs.part.count, fat, ch, disc, fs.Table(), a.chain, fs.part.Disc(), a.locSector, b.chain, b.locSector);
    }
    forall j, k | 0 <= j < |files| && 0 <= k < |files| && j != k && j != i && k != i ensures Pair(files[j], files[k]) {
      StillForeign(fs.g, fs.part.count, fat, ch, fs.Table(), a.chain, files[j].chain, files[k].chain, files[k].locSector);
    }
    DemandUpdate(fs.g, lengths, limits, i, |a.chain|);
    assert Lengths(files) == lengths[i := |a.chain|];
    GrewCount(fs.g.fatType, fat, ch, fs.Table(), a.chain, |fat| - 1);
    StepSize(m, op, limits[i]);
    LessMissing(fs.g, ch, |m.content|, limits[i], a.fileSize, |a.chain|);
  }

  /** An allowed call takes a file beyond its limit only if it is there already. */
  lemma StepSize(m: FileModel, op: FileOp, limit: nat)
    requires m.pos <= |m.content| && Allowed(m, op, limit)
    ensures |Step(m, op).0.content| <= |m.content| || |Step(m, op).0.content| <= limit
  {
  }

  /** A chain that has grown for such a call lacks as many clusters less. */
  lemma LessMissing(g: Geometry, ch: seq<nat>, size: nat, limit: nat, size': nat, n': nat)
    requires g.spc > 0 && Measured(g, ch, size) && (size' <= size || size' <= limit)
    requires n' == Longer(|ch|, CeilDiv(size', 512 * g.spc))
    ensures Missing(g, n', limit) == Missing(g, |ch|, limit) - (n' - |ch|)
  {
    hide CeilDiv;
    if size' <= size {
      MeasuredClusters(g, ch, size);
      hide Measured;
      CeilDivLeast(size', 512 * g.spc, |ch|);
    } else {
      hide Measured;
      CeilDivMono(size', limit, 512 * g.spc);
    }
  }

  // ---- runs ----

  /** The users of the files see these byte strings with positions. */
  ghost predicate SeenAs(files: seq<File>, ms: seq<FileModel>)
    reads set k | 0 <= k < |files| :: files[k], set k | 0 <= k < |files| :: files[k].cache
    reads set k | 0 <= k < |files| :: files[k].fs.part.io
  {
    |ms| == |files| && forall i :: 0 <= i < |files| ==> Working(files[i]) && View(files[i]) == ms[i]
  }

  /** A call on file `i`. */
  datatype CallOn = CallOn(i: nat, op: FileOp)

  /** Positions are inside the files. */
  predicate Inside(ms: seq<FileModel>) {
    forall i :: 0 <= i < |ms| ==> ms[i].pos <= |ms[i].content|
  }

  function StepOn(ms: seq<FileModel>, c: CallOn): (r: (seq<FileModel>, seq<Byte>))
    requires Inside(ms)
    ensures Inside(r.0) && |r.0| == |ms|
  {
    if c.i < |ms| then
      var (m, out) := Step(ms[c.i], c.op);
      (ms[c.i := m], out)
    else (ms, [])
  }

  function RunOn(ms: seq<FileModel>, cs: seq<CallOn>): (r: (seq<FileModel>, seq<seq<Byte>>))
    requires Inside(ms)
    ensures Inside(r.0) && |r.0| == |ms| && |r.1| == |cs|
  {
    if cs == [] then (ms, [])
    else
      var (ms1, outs) := RunOn(ms, cs[..|cs| - 1]);
      var (ms2, out) := StepOn(ms1, cs[|cs| - 1]);
      (ms2, outs + [out])
  }

  predicate AllowedOn(ms: seq<FileModel>, c: CallOn, limits: seq<nat>) {
    c.i < |ms| == |limits| && Allowed(ms[c.i], c.op, limits[c.i])
  }

  ghost predicate AllAllowedOn(ms: seq<FileModel>, cs: seq<CallOn>, limits: seq<nat>)
    requires Inside(ms)
  {
    forall k :: 0 <= k < |cs| ==> AllowedOn(RunOn(ms, cs[..k]).0, cs[k], limits)
  }

  /** Every run of calls on any of the open files, in any order, does to each what it does to its byte string. */
  method Play(fs: FileSystem, files: seq<File>, cs: seq<CallOn>, ghost limits: seq<nat>, ghost ms: seq<FileModel>)
    returns (outs: seq<seq<Byte>>)
    requires Together(fs, files, limits) && SeenAs(files, ms) && Inside(ms) && AllAllowedOn(ms, cs, limits)
    modifies fs.part.io, fs`freeClusterCount, set k | 0 <= k < |files| :: files[k], set k | 0 <= k < |files| :: files[k].cache
    ensures Together(fs, files, limits)
    ensures SeenAs(files, RunOn(ms, cs).0) && outs == RunOn(ms, cs).1
  {
    hide FileSystem.Ok, Partition.Slack, FileSystem.Table, AllWorking, Demand, FreeBelow, StepOn, AllowedOn, SeenAs;
    outs := [];
    for k := 0 to |cs|
      invariant Together(fs, files, limits)
      invariant SeenAs(files, RunOn(ms, cs[..k]).0) && outs == RunOn(ms, cs[..k]).1
    {
      assert AllowedOn(RunOn(ms, cs[..k]).0, cs[k], limits);
      var out := CallNumbered(fs, files, cs[k], limits, RunOn(ms, cs[..k]).0);
      outs := outs + [out];
      assert cs[..k + 1][..k] == cs[..k];
    }
    assert cs[..|cs|] == cs;
  }

  method CallNumbered(fs: FileSystem, files: seq<File>, c: CallOn, ghost limits: seq<nat>, ghost ms: seq<FileModel>) returns (out: seq<Byte>)
    requires Together(fs, files, limits) && SeenAs(files, ms) && Inside(ms) && AllowedOn(ms, c, limits)
    modifies fs.part.io, fs`freeClusterCount, set k | 0 <= k < |files| :: files[k], set k | 0 <= k < |files| :: files[k].cache
    ensures Together(fs, files, limits)
    ensures SeenAs(files, StepOn(ms, c).0) && out == StepOn(ms, c).1
  {
    hide FileSystem.Ok, Partition.Slack, FileSystem.Table, Working, Pair, Demand, FreeBelow, Step, Allowed, View;
    out := Call(fs, files, c.i, files[c.i], c.op, limits);
  }
}
