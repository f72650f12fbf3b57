/** A volume as its users see it: what each file holds, on which clusters, and which clusters are free; and what the
    operations do to it. */
module VolumeModels {
  import opened Bytes
  import opened Geometries
  import opened Chains
  import opened Scans
  import opened Sizes
  import opened Directories
  import opened Files
  import opened Runs
  import opened Volumes
  import opened Catalogs

  datatype Model = Model(files: map<Place, FileInfo>, free: set<nat>)

  /** An operation; the file is named by the place of its directory record. An edit opens the file for appending, makes any
      calls on it and closes it; it never takes the file beyond `limit` bytes. */
  datatype VolumeOp =
    | Create(p: Place, name: FatName)
    | Edit(p: Place, ops: seq<FileOp>, limit: nat)
    | Delete(p: Place)

  /** Opened for appending, a file stands at its end. */
  function Opened(i: FileInfo): FileModel { FileModel(i.content, |i.content|) }

  /** A FAT with these clusters free. */
  ghost function WithFree(free: set<nat>, n: nat): (fat: seq<nat>)
    ensures |fat| == n
    ensures forall c: nat :: c < n ==> (fat[c] == 0 <==> c in free)
  {
    seq(n, c requires 0 <= c < n => if c in free then 0 else 1)
  }

  /** The cluster a new file gets: the first free one below DataClusterCount; 0 if there is none. */
  ghost function FirstOf(g: Geometry, free: set<nat>): nat {
    FirstFreeCluster(WithFree(free, g.dcc + 2), g.dcc)
  }

  /** The clusters a chain that ends in `last` can be extended by, in the order they are taken. */
  ghost function NextOf(g: Geometry, free: set<nat>, last: nat): seq<nat> {
    Candidates(WithFree(free, g.dcc + 2), last, g.dcc)
  }

  /** The chain of a file that has grown to `size` bytes. */
  ghost function Grown(g: Geometry, free: set<nat>, ch: seq<nat>, size: nat): seq<nat> {
    if ch == [] || g.spc == 0 then ch
    else
      var next, n := NextOf(g, free, ch[|ch| - 1]), Longer(|ch|, CeilDiv(size, 512 * g.spc)) - |ch|;
      if n <= |next| then ch + next[..n] else ch
  }

  /** A file without clusters gets one when it is opened for appending. */
  ghost function Adopted(g: Geometry, m: Model, p: Place): Model {
    var c := FirstOf(g, m.free);
    if p in m.files && m.files[p].chain == [] && c != 0 then Model(m.files[p := m.files[p].(chain := [c])], m.free - {c}) else m
  }

  lemma AdoptedFacts(g: Geometry, m: Model, p: Place)
    requires p in m.files
    ensures var m1 := Adopted(g, m, p);
            && p in m1.files && m1.files[p].content == m.files[p].content
            && (m.files[p].chain != [] ==> m1 == m)
            && (m1.files[p].chain != [] && m.files[p].chain == [] ==> FirstOf(g, m.free) != 0)
  {
    hide FirstOf;
  }

  /** What an operation needs: an unused place for a new file; for an edit a first cluster, as many further ones as its
      limit calls for, and calls that are allowed. */
  ghost predicate Enabled(g: Geometry, area: set<nat>, m: Model, op: VolumeOp) {
    match op
    case Create(p, name) => p !in m.files && p.sector in area && p.record < 16
    case Edit(p, ops, limit) =>
      && p in m.files && AllAllowed(Opened(m.files[p]), ops, limit) && limit + 512 * g.spc <= UINT32
      && var m1 := Adopted(g, m, p);
      && var ch := m1.files[p].chain;
      && ch != [] && Missing(g, |ch|, limit) <= |NextOf(g, m1.free, ch[|ch| - 1])|
    case Delete(p) => p in m.files
  }

  /** What it does: the volume afterwards, and what the calls of an edit have read. */
  ghost function VolumeStep(g: Geometry, m: Model, op: VolumeOp): (Model, seq<seq<Byte>>) {
    match op
    case Create(p, name) =>
      var c := FirstOf(g, m.free);
      (Model(m.files[p := FileInfo([], if c == 0 then [] else [c])], if c == 0 then m.free else m.free - {c}), [])
    case Edit(p, ops, limit) => if p in m.files then Edited(g, Adopted(g, m, p), p, ops) else (m, [])
    case Delete(p) => if p in m.files then (Model(m.files - {p}, m.free + Members(m.files[p].chain)), []) else (m, [])
  }

  ghost function Edited(g: Geometry, m: Model, p: Place, ops: seq<FileOp>): (Model, seq<seq<Byte>>)
    requires p in m.files
  {
    var i := m.files[p];
    var (fm, outs) := RunModel(Opened(i), ops);
    var ch := Grown(g, m.free, i.chain, |fm.content|);
    (Model(m.files[p := FileInfo(fm.content, ch)], m.free - (Members(ch) - Members(i.chain))), outs)
  }

  /** A run of operations: the volume at the end, and what each operation has read. */
  ghost function RunVolume(g: Geometry, m: Model, ops: seq<VolumeOp>): (Model, seq<seq<seq<Byte>>>) {
    if ops == [] then (m, [])
    else
      var (m1, outs) := RunVolume(g, m, ops[..|ops| - 1]);
      var (m2, out) := VolumeStep(g, m1, ops[|ops| - 1]);
      (m2, outs + [out])
  }

  ghost predicate AllEnabled(g: Geometry, area: set<nat>, m: Model, ops: seq<VolumeOp>) {
    forall k :: 0 <= k < |ops| ==> Enabled(g, area, RunVolume(g, m, ops[..k]).0, ops[k])
  }

  /** The users' view determines what the FAT's allocator does. */
  lemma FirstIs(g: Geometry, fat: seq<nat>)
    requires |fat| == g.dcc + 2
    ensures FirstOf(g, Free(fat)) == FirstFreeCluster(fat, g.dcc)
  {
    hide FreeIn, FreeList;
    FreeInSame(fat, WithFree(Free(fat), |fat|), 2, g.dcc);
  }

  lemma NextIs(g: Geometry, fat: seq<nat>, last: nat)
    requires |fat| == g.dcc + 2 && 2 <= last
    ensures NextOf(g, Free(fat), last) == Candidates(fat, last, g.dcc)
  {
    hide FreeIn, FreeList;
    FreeInSame(fat, WithFree(Free(fat), |fat|), last + 1, g.dcc + 1);
    FreeInSame(fat, WithFree(Free(fat), |fat|), 2, LowEnd(last, g.dcc));
  }

  // ---- what is written to a new file is found when it is opened again ----

  /** Create; open, write in pieces, close; open again, seek to the start and read in pieces. */
  function RoundTrip(p: Place, name: FatName, chunks: seq<seq<Byte>>, sizes: seq<nat>, limit: nat): seq<VolumeOp> {
    [Create(p, name), Edit(p, Writes(chunks), limit), Edit(p, [Seek(0)] + Reads(sizes), limit)]
  }

  lemma RunOn(g: Geometry, m: Model, ops: seq<VolumeOp>, op: VolumeOp)
    ensures var (m1, outs) := RunVolume(g, m, ops);
            var (m2, out) := VolumeStep(g, m1, op);
            RunVolume(g, m, ops + [op]) == (m2, outs + [out])
  {
    assert (ops + [op])[..|ops + [op]| - 1] == ops;
    hide VolumeStep;
  }

  lemma ThreeSteps(g: Geometry, m: Model, a: VolumeOp, b: VolumeOp, c: VolumeOp)
    ensures var ops := [a, b, c];
            var (m1, o1) := VolumeStep(g, m, a);
            var (m2, o2) := VolumeStep(g, m1, b);
            var (m3, o3) := VolumeStep(g, m2, c);
            && RunVolume(g, m, ops[..0]).0 == m && RunVolume(g, m, ops[..1]).0 == m1
            && RunVolume(g, m, ops[..2]).0 == m2 && RunVolume(g, m, ops).0 == m3
            && RunVolume(g, m, ops).1 == [o1, o2, o3]
  {
    hide VolumeStep, RunVolume;
    RunNone(g, m);
    RunOn(g, m, [], a);
    RunOn(g, m, [a], b);
    RunOn(g, m, [a, b], c);
    var ops := [a, b, c];
    assert ops[..0] == [] && ops[..1] == [] + [a] == [a] && ops[..2] == [a] + [b] == [a, b] && ops == [a, b] + [c];
  }

  lemma RunNone(g: Geometry, m: Model)
    ensures RunVolume(g, m, []) == (m, [])
  {
  }

  /** Writing in pieces to an empty file. */
  lemma FirstEdit(g: Geometry, m: Model, p: Place, chunks: seq<seq<Byte>>, limit: nat)
    requires p in m.files && m.files[p].content == []
    ensures var s, m1 := Flatten(chunks), Adopted(g, m, p);
            var ch := Grown(g, m1.free, m1.files[p].chain, |s|);
            VolumeStep(g, m, Edit(p, Writes(chunks), limit)).0
            == Model(m1.files[p := FileInfo(s, ch)], m1.free - (Members(ch) - Members(m1.files[p].chain)))
  {
    WritesAppend([], chunks);
    assert [] + Flatten(chunks) == Flatten(chunks);
    hide RunModel, Writes, Flatten, Grown, FirstOf;
  }

  /** What was written to a new file in whatever pieces is what comes back after it has been closed and opened again, in
      whatever pieces it is read. */
  lemma WrittenIsRead(g: Geometry, m: Model, p: Place, name: FatName, chunks: seq<seq<Byte>>, sizes: seq<nat>, limit: nat)
    requires Sum(sizes) >= |Flatten(chunks)|
    ensures var outs := RunVolume(g, m, RoundTrip(p, name, chunks, sizes, limit)).1;
            |outs| == 3 && outs[2] != [] && Flatten(outs[2][1..]) == Flatten(chunks)
  {
    hide RunModel, Writes, Reads, Flatten, RunVolume, Grown, FirstOf;
    var s := Flatten(chunks);
    var a, b, c := Create(p, name), Edit(p, Writes(chunks), limit), Edit(p, [Seek(0)] + Reads(sizes), limit);
    var m1 := VolumeStep(g, m, a).0;
    var m2 := VolumeStep(g, m1, b).0;
    FirstEdit(g, m1, p, chunks, limit);
    assert p in m2.files && m2.files[p].content == s;
    ReadBack(g, m2, p, s, [Seek(0)] + Reads(sizes), limit);
    ThreeSteps(g, m, a, b, c);
    SeekThenReads(s, |s|, sizes);
  }

  /** What an edit reads depends on the content only. */
  lemma ReadBack(g: Geometry, m: Model, p: Place, s: seq<Byte>, ops: seq<FileOp>, limit: nat)
    requires p in m.files && m.files[p].content == s
    ensures VolumeStep(g, m, Edit(p, ops, limit)).1 == RunModel(FileModel(s, |s|), ops).1
  {
    hide RunModel, Grown, FirstOf;
  }

  /** The round trip can be made exactly if the place is unused, there is a first cluster, there are further ones for
      `limit` bytes, and no request wraps round. */
  lemma RoundTripEnabled(g: Geometry, area: set<nat>, m: Model, p: Place, name: FatName, chunks: seq<seq<Byte>>, sizes: seq<nat>,
                         limit: nat)
    requires g.spc > 0 && p !in m.files && p.sector in area && p.record < 16
    requires |Flatten(chunks)| <= limit && limit + 512 * g.spc <= UINT32
    requires var c := FirstOf(g, m.free); c != 0 && Missing(g, 1, limit) <= |NextOf(g, m.free - {c}, c)|
    requires forall i :: 0 <= i < |sizes| ==> |Flatten(chunks)| + sizes[i] < UINT32
    ensures AllEnabled(g, area, m, RoundTrip(p, name, chunks, sizes, limit))
  {
    hide Flatten, AllAllowed, Writes, Reads, Missing, CeilDiv, FirstOf, NextOf, RunVolume, Longer;
    var s := Flatten(chunks);
    var a, b, c := Create(p, name), Edit(p, Writes(chunks), limit), Edit(p, [Seek(0)] + Reads(sizes), limit);
    var m1 := VolumeStep(g, m, a).0;
    WritesAllowed([], chunks, limit);
    assert Enabled(g, area, m1, b);
    FirstEdit(g, m1, p, chunks, limit);
    ReadsAllowed(s, |s|, sizes, limit);
    FirstFacts(g, m.free);
    LaterNext(g, m.free - {FirstOf(g, m.free)}, FirstOf(g, m.free), |s|, limit);
    var m2 := VolumeStep(g, m1, b).0;
    assert Enabled(g, area, m2, c);
    ThreeSteps(g, m, a, b, c);
  }

  lemma FirstFacts(g: Geometry, free: set<nat>)
    requires FirstOf(g, free) != 0
    ensures 2 <= FirstOf(g, free) < g.dcc && FirstOf(g, free) in free
  {
  }

  /** After growing for `t` bytes there are still enough clusters for `limit`. */
  lemma LaterNext(g: Geometry, free: set<nat>, c: nat, t: nat, limit: nat)
    requires g.spc > 0 && 2 <= c < g.dcc + 2 && c !in free && t <= limit && Missing(g, 1, limit) <= |NextOf(g, free, c)|
    ensures var ch := Grown(g, free, [c], t);
            && ch != [] && Missing(g, |ch|, limit) <= |NextOf(g, free - (Members(ch) - Members([c])), ch[|ch| - 1])|
  {
    hide NextOf, Missing, CeilDiv;
    MissingAfter(g, 1, t, limit);
    var n := Missing(g, 1, t);
    var next := NextOf(g, free, c);
    var xs := next[..n];
    assert Longer(1, CeilDiv(t, 512 * g.spc)) - 1 == n;
    NextAfter(g, free, c, n);
    TailOf([c], xs);
    MembersLess(c, xs);
    hide Longer, Members;
    assert Grown(g, free, [c], t) == [c] + xs;
  }

  lemma MembersLess(c: nat, xs: seq<nat>)
    requires c !in xs
    ensures Members([c] + xs) - Members([c]) == Members(xs)
  {
    var ch := [c] + xs;
    assert ch[0] == c && forall i :: 0 <= i < |xs| ==> ch[i + 1] == xs[i];
    forall x | x in Members(ch) && x != c ensures x in Members(xs) {
      var i :| 0 <= i < |ch| && ch[i] == x;
      assert xs[i - 1] == x;
    }
    forall x | x in Members(xs) ensures x in Members(ch) && x != c {
      var i :| 0 <= i < |xs| && xs[i] == x;
      assert ch[i + 1] == x;
    }
    assert Members([c]) == {c};
  }

  lemma NextAfter(g: Geometry, free: set<nat>, c: nat, n: nat)
    requires 2 <= c < g.dcc + 2 && c !in free && n <= |NextOf(g, free, c)|
    ensures var next := NextOf(g, free, c);
            && c !in next[..n]
            && NextOf(g, free - Members(next[..n]), Tail(c, next[..n])) == next[n..]
  {
    var fat, xs := WithFree(free, g.dcc + 2), NextOf(g, free, c)[..n];
    var fat' := WithFree(free - Members(xs), g.dcc + 2);
    CandidatesExact(fat, c, g.dcc);
    hide Candidates, WithFree;
    forall d | 2 <= d < |fat| ensures fat'[d] == 0 <==> fat[d] == 0 && d !in xs {
      assert d in Members(xs) <==> d in xs;
    }
    assert c !in xs;
    CandidatesAfter(fat, c, g.dcc, n, fat');
  }
}
