/** All chains of a volume together: files come, grow and go, and every cluster stays accounted for. */
module Volumes {
  import opened Geometries
  import opened Chains
  import opened Scans
  import opened Runs
  import opened Files

  /** Where a directory record is. */
  datatype Place = Place(sector: nat, record: nat)

  ghost predicate Separate(a: seq<nat>, b: seq<nat>) {
    forall i :: 0 <= i < |a| ==> a[i] !in b
  }

  ghost predicate OnSome(dir: map<Place, seq<nat>>, c: int) {
    exists p :: p in dir && c in dir[p]
  }

  /** The files' chains are chains, no two of them meet, and every cluster is free, used otherwise, or on a file's chain.
      `used` are the clusters of directories. A file may have no clusters. */
  ghost predicate Sound(t: FatType, fat: seq<nat>, dir: map<Place, seq<nat>>, used: set<nat>) {
    Numbered(t, fat) && ChainsDisjoint(t, fat, dir) && Accounted(fat, dir, used)
  }

  ghost predicate ChainsDisjoint(t: FatType, fat: seq<nat>, dir: map<Place, seq<nat>>) {
    && (forall p :: p in dir && dir[p] != [] ==> IsChain(t, fat, dir[p]))
    && (forall p, q :: p in dir && q in dir && p != q ==> Separate(dir[p], dir[q]))
  }

  ghost predicate Accounted(fat: seq<nat>, dir: map<Place, seq<nat>>, used: set<nat>) {
    && (forall p, i :: p in dir && 0 <= i < |dir[p]| ==> dir[p][i] !in used)
    && (forall c :: c in used ==> 2 <= c < |fat| && fat[c] != 0)
    && (forall c :: 2 <= c < |fat| && fat[c] != 0 ==> c in used || OnSome(dir, c))
  }

  lemma SoundFile(t: FatType, fat: seq<nat>, dir: map<Place, seq<nat>>, used: set<nat>, p: Place)
    requires Sound(t, fat, dir, used) && p in dir
    ensures Numbered(t, fat) && (dir[p] != [] ==> IsChain(t, fat, dir[p]))
    ensures forall i :: 0 <= i < |dir[p]| ==> 2 <= dir[p][i] < |fat| && dir[p][i] !in used
  {
  }

  lemma SoundPair(t: FatType, fat: seq<nat>, dir: map<Place, seq<nat>>, used: set<nat>, p: Place, q: Place)
    requires Sound(t, fat, dir, used) && p in dir && q in dir && p != q
    ensures Separate(dir[p], dir[q])
  {
  }

  /** A used cluster is on one chain only. */
  lemma OnOneChain(t: FatType, fat: seq<nat>, dir: map<Place, seq<nat>>, used: set<nat>, p: Place, q: Place, c: nat)
    requires Sound(t, fat, dir, used) && p in dir && q in dir && c in dir[p] && c in dir[q]
    ensures p == q && c < |fat| && fat[c] != 0 && c !in used
  {
    var i :| 0 <= i < |dir[p]| && dir[p][i] == c;
    ChainEntriesNonZero(t, fat, dir[p], i);
    assert p != q ==> Separate(dir[p], dir[q]);
  }

  /** Changes to the FAT that concern clusters of one file only, before or after, keep every other file's chain. */
  lemma OthersStay(t: FatType, fat: seq<nat>, dir: map<Place, seq<nat>>, used: set<nat>, q: Place, fat': seq<nat>, own: seq<nat>)
    requires Sound(t, fat, dir, used) && q in dir && |fat'| == |fat|
    requires Separate(dir[q], own)
    requires forall c :: 0 <= c < |fat| && c !in own ==> fat'[c] == fat[c]
    ensures dir[q] != [] ==> IsChain(t, fat', dir[q])
  {
    if dir[q] != [] { ChainFrame(t, fat, fat', dir[q]); }
  }

  /** A file's clusters with free ones added are still apart from every other file's. */
  lemma GrownSeparate(t: FatType, fat: seq<nat>, dir: map<Place, seq<nat>>, used: set<nat>, q: Place, ch: seq<nat>, ch': seq<nat>)
    requires Sound(t, fat, dir, used) && q in dir && Separate(dir[q], ch)
    requires ch <= ch' && forall i :: |ch| <= i < |ch'| ==> ch'[i] < |fat| && fat[ch'[i]] == 0
    ensures Separate(dir[q], ch') && Separate(ch', dir[q])
  {
    forall i, j | 0 <= i < |dir[q]| && 0 <= j < |ch'| ensures dir[q][i] != ch'[j] {
      if j < |ch| {
        assert dir[q][i] !in ch && ch[j] in ch;
      } else {
        ChainEntriesNonZero(t, fat, dir[q], i);
      }
    }
  }

  /** A new file or a longer one: chain `ch` of `p` (none before if `p` is new) becomes `ch'`. */
  lemma GrowKeepsSound(t: FatType, fat: seq<nat>, dir: map<Place, seq<nat>>, used: set<nat>, p: Place, ch: seq<nat>,
                fat': seq<nat>, ch': seq<nat>)
    requires Sound(t, fat, dir, used) && (if p in dir then ch == dir[p] else ch == [])
    requires Grew(t, fat, ch, fat', ch')
    ensures Sound(t, fat', dir[p := ch'], used)
  {
    var dir' := dir[p := ch'];
    hide IsChain, Accounted;
    forall q | q in dir' && q != p
      ensures (dir'[q] != [] ==> IsChain(t, fat', dir'[q])) && Separate(dir'[q], ch') && Separate(ch', dir'[q])
    {
      GrownSeparate(t, fat, dir, used, q, ch, ch');
      OthersStay(t, fat, dir, used, q, fat', ch');
    }
    GrowAccounted(t, fat, dir, used, p, ch, fat', ch');
  }

  lemma GrowAccounted(t: FatType, fat: seq<nat>, dir: map<Place, seq<nat>>, used: set<nat>, p: Place, ch: seq<nat>,
                      fat': seq<nat>, ch': seq<nat>)
    requires Sound(t, fat, dir, used) && (if p in dir then ch == dir[p] else ch == [])
    requires Grew(t, fat, ch, fat', ch')
    ensures Accounted(fat', dir[p := ch'], used)
  {
    var dir' := dir[p := ch'];
    hide IsChain;
    forall i | 0 <= i < |ch'| ensures ch'[i] !in used { NotUsed(t, fat, dir, used, p, ch, fat', ch', i); }
    forall c | c in used ensures 2 <= c < |fat'| && fat'[c] != 0 {
      assert c !in ch';
    }
    forall c | 2 <= c < |fat'| && fat'[c] != 0 ensures c in used || OnSome(dir', c) {
      if c in ch' {
        assert dir'[p] == ch';
      } else {
        assert fat[c] != 0;
        if c !in used { StillOn(dir, p, ch', c); }
      }
    }
  }

  /** A file without clusters comes; only the reserved entry 0 has changed. */
  lemma EmptyFileKeepsSound(t: FatType, fat: seq<nat>, dir: map<Place, seq<nat>>, used: set<nat>, p: Place, v: nat)
    requires Sound(t, fat, dir, used) && p !in dir
    ensures Sound(t, fat[0 := v], dir[p := []], used)
  {
    hide Accounted, Separate;
    EmptyFileAccounted(fat, dir, used, p, v);
    var fat', dir' := fat[0 := v], dir[p := []];
    forall q | q in dir' && dir'[q] != [] ensures IsChain(t, fat', dir'[q]) { ChainFrame(t, fat, fat', dir[q]); }
    forall a, b | a in dir' && b in dir' && a != b ensures Separate(dir'[a], dir'[b]) {
      if a == p || b == p { EmptySeparate(dir'[a], dir'[b]); }
    }
  }

  lemma EmptySeparate(a: seq<nat>, b: seq<nat>)
    requires a == [] || b == []
    ensures Separate(a, b)
  {
  }

  lemma EmptyFileAccounted(fat: seq<nat>, dir: map<Place, seq<nat>>, used: set<nat>, p: Place, v: nat)
    requires Accounted(fat, dir, used) && p !in dir && fat != []
    ensures Accounted(fat[0 := v], dir[p := []], used)
  {
    forall c | 2 <= c < |fat| && fat[c] != 0 && c !in used ensures OnSome(dir[p := []], c) { StillOn(dir, p, [], c); }
  }

  lemma NotUsed(t: FatType, fat: seq<nat>, dir: map<Place, seq<nat>>, used: set<nat>, p: Place, ch: seq<nat>,
                fat': seq<nat>, ch': seq<nat>, i: nat)
    requires Sound(t, fat, dir, used) && (if p in dir then ch == dir[p] else ch == [])
    requires Grew(t, fat, ch, fat', ch') && i < |ch'|
    ensures ch'[i] !in used
  {
    if i < |ch| { assert ch'[i] == dir[p][i]; }
  }

  lemma StillOn(dir: map<Place, seq<nat>>, p: Place, ch': seq<nat>, c: nat)
    requires OnSome(dir, c) && (p in dir ==> dir[p] <= ch')
    ensures OnSome(dir[p := ch'], c)
  {
    var q :| q in dir && c in dir[q];
    if q == p {
      var i :| 0 <= i < |dir[p]| && dir[p][i] == c;
      assert ch'[i] == c;
    }
    assert q in dir[p := ch'] && c in dir[p := ch'][q];
  }

  /** Deleting: the clusters of one file are freed; if it had none, the reserved entry 0 is. */
  lemma DeleteKeepsSound(t: FatType, fat: seq<nat>, dir: map<Place, seq<nat>>, used: set<nat>, p: Place)
    requires Sound(t, fat, dir, used) && p in dir
    ensures forall i :: 0 <= i < |Visited(dir[p])| ==> Visited(dir[p])[i] < |fat|
    ensures Sound(t, Cleared(fat, Visited(dir[p])), dir - {p}, used)
  {
    hide Accounted, ChainFrom, Separate, Cleared;
    SoundFile(t, fat, dir, used, p);
    var vs, dir' := Visited(dir[p]), dir - {p};
    var fat' := Cleared(fat, vs);
    forall q | q in dir' && dir'[q] != [] ensures IsChain(t, fat', dir'[q]) {
      SoundFile(t, fat, dir, used, q);
      SoundPair(t, fat, dir, used, q, p);
      VisitedSeparate(dir[q], dir[p]);
      OthersStay(t, fat, dir, used, q, fat', vs);
    }
    DeleteAccounted(fat, dir, used, p);
  }

  lemma VisitedSeparate(a: seq<nat>, b: seq<nat>)
    requires Separate(a, b) && forall i :: 0 <= i < |a| ==> 2 <= a[i]
    ensures Separate(a, Visited(b))
  {
  }

  lemma DeleteAccounted(fat: seq<nat>, dir: map<Place, seq<nat>>, used: set<nat>, p: Place)
    requires Accounted(fat, dir, used) && p in dir && forall i :: 0 <= i < |Visited(dir[p])| ==> Visited(dir[p])[i] < |fat|
    ensures Accounted(Cleared(fat, Visited(dir[p])), dir - {p}, used)
  {
    hide OnSome;
    var fat', dir' := Cleared(fat, Visited(dir[p])), dir - {p};
    forall c | c in used ensures 2 <= c < |fat'| && fat'[c] != 0 { assert c !in dir[p]; }
    forall c | 2 <= c < |fat'| && fat'[c] != 0 ensures c in used || OnSome(dir', c) {
      if c !in used { StillOnOther(dir, p, c); }
    }
  }

  lemma StillOnOther(dir: map<Place, seq<nat>>, p: Place, c: nat)
    requires OnSome(dir, c) && p in dir && c !in dir[p]
    ensures OnSome(dir - {p}, c)
  {
    var q :| q in dir && c in dir[q];
    assert q in dir - {p};
  }

  /** The clusters nobody uses. */
  ghost function Free(fat: seq<nat>): set<nat> {
    FreeBelow(fat, |fat|)
  }

  /** Counting them one by one. */
  lemma FreeCounted(fat: seq<nat>)
    ensures |FreeIn(fat, 2, |fat|)| == |Free(fat)|
  {
    var xs := FreeIn(fat, 2, |fat|);
    MembersCount(xs);
    assert forall c :: c in Members(xs) <==> c in xs;
    assert Members(xs) == Free(fat);
  }

  /** A new file takes the first free cluster. */
  lemma CreateGrows(t: FatType, fat: seq<nat>)
    requires Numbered(t, fat) && FirstFreeCluster(fat, |fat| - 2) != 0
    ensures var c := FirstFreeCluster(fat, |fat| - 2);
            && c < |fat| && Grew(t, fat, [], fat[c := GiveEoc(t)], [c])
            && Free(fat[c := GiveEoc(t)]) == Free(fat) - {c}
  {
    var c := FirstFreeCluster(fat, |fat| - 2);
    assert 2 <= c < |fat| - 2 && fat[c] == 0;
    hide FirstFreeCluster;
  }

  /** The clusters added to a chain are no longer free; nothing else is lost or won. */
  lemma GrewFree(t: FatType, fat: seq<nat>, ch: seq<nat>, fat': seq<nat>, ch': seq<nat>)
    requires IsChain(t, fat, ch) && Grew(t, fat, ch, fat', ch')
    ensures Free(fat') == Free(fat) - Members(ch'[|ch|..])
  {
    forall c: nat ensures c in Free(fat') <==> c in Free(fat) - Members(ch'[|ch|..]) {
      GrewEntry(t, fat, ch, fat', ch', c);
    }
  }

  /** A deleted file gives all its clusters back. */
  lemma DeleteFrees(t: FatType, fat: seq<nat>, ch: seq<nat>)
    requires 0 < |fat| && (ch != [] ==> IsChain(t, fat, ch))
    ensures forall i :: 0 <= i < |Visited(ch)| ==> Visited(ch)[i] < |fat|
    ensures Free(Cleared(fat, Visited(ch))) == Free(fat) + Members(ch)
  {
    forall c: nat ensures c in Free(Cleared(fat, Visited(ch))) <==> c in Free(fat) + Members(ch) {
      assert c in Members(ch) <==> c in ch;
    }
  }

  // ---- clusters are neither lost nor won ----

  /** The clusters on the files' chains. */
  ghost function OnChains(dir: map<Place, seq<nat>>): set<nat> {
    set p, i | p in dir && 0 <= i < |dir[p]| :: dir[p][i]
  }

  /** How many clusters the files have in all. */
  ghost function Total(dir: map<Place, seq<nat>>): nat
    decreases |dir|
  {
    if dir == map[] then 0 else var p :| p in dir; |dir[p]| + Total(dir - {p})
  }

  lemma {:induction false} TotalWithout(dir: map<Place, seq<nat>>, p: Place)
    requires p in dir
    ensures Total(dir) == |dir[p]| + Total(dir - {p})
    decreases |dir|
  {
    var q :| q in dir && Total(dir) == |dir[q]| + Total(dir - {q});
    if q != p {
      TotalWithout(dir - {q}, p);
      TotalWithout(dir - {p}, q);
      assert dir - {q} - {p} == dir - {p} - {q};
    }
  }

  /** Chains that do not meet, and of which none repeats a cluster, have as many clusters as they are long. */
  lemma {:induction false} OnChainsCount(dir: map<Place, seq<nat>>)
    requires forall p :: p in dir ==> Distinct(dir[p])
    requires forall p, q :: p in dir && q in dir && p != q ==> Separate(dir[p], dir[q])
    ensures |OnChains(dir)| == Total(dir)
    decreases |dir|
  {
    if dir == map[] {
      assert OnChains(dir) == {};
    } else {
      var p :| p in dir;
      var rest := dir - {p};
      TotalWithout(dir, p);
      OnChainsCount(rest);
      MembersCount(dir[p]);
      OnChainsSplit(dir, p);
    }
  }

  lemma OnChainsSplit(dir: map<Place, seq<nat>>, p: Place)
    requires p in dir && forall q :: q in dir && q != p ==> Separate(dir[q], dir[p])
    ensures OnChains(dir) == OnChains(dir - {p}) + Members(dir[p])
    ensures OnChains(dir - {p}) !! Members(dir[p])
  {
    forall c | c in OnChains(dir - {p}) ensures c !in Members(dir[p]) {
      var q, i :| q in dir - {p} && 0 <= i < |(dir - {p})[q]| && (dir - {p})[q][i] == c;
      assert Separate(dir[q], dir[p]) && dir[q][i] == c;
    }
    forall c | c in OnChains(dir) ensures c in OnChains(dir - {p}) + Members(dir[p]) {
      var q, i :| q in dir && 0 <= i < |dir[q]| && dir[q][i] == c;
      if q == p { assert dir[p][i] in Members(dir[p]); } else { assert (dir - {p})[q][i] == c; }
    }
    forall c | c in Members(dir[p]) ensures c in OnChains(dir) {
      var i :| 0 <= i < |dir[p]| && dir[p][i] == c;
    }
    forall c | c in OnChains(dir - {p}) ensures c in OnChains(dir) {
      var q, i :| q in dir - {p} && 0 <= i < |(dir - {p})[q]| && (dir - {p})[q][i] == c;
      assert dir[q][i] == c;
    }
  }

  ghost function Interval(a: nat, b: nat): (r: set<nat>)
    requires a <= b
    ensures forall c: nat :: c in r <==> a <= c < b
    ensures |r| == b - a
    decreases b
  {
    if a == b then {} else Interval(a, b - 1) + {b - 1}
  }

  /** On every sound volume the free clusters, the files' and the directories' add up to all clusters. */
  lemma ClustersAddUp(t: FatType, fat: seq<nat>, dir: map<Place, seq<nat>>, used: set<nat>)
    requires Sound(t, fat, dir, used)
    ensures |Free(fat)| + Total(dir) + |used| == |fat| - 2
  {
    forall p | p in dir ensures Distinct(dir[p]) {
      if dir[p] != [] { ChainDistinct(t, fat, dir[p]); }
    }
    OnChainsCount(dir);
    AllAccounted(t, fat, dir, used);
    hide Sound, OnChains;
    assert |Free(fat) + used + OnChains(dir)| == |Free(fat)| + |used| + |OnChains(dir)|;
  }

  lemma AllAccounted(t: FatType, fat: seq<nat>, dir: map<Place, seq<nat>>, used: set<nat>)
    requires Sound(t, fat, dir, used)
    ensures Free(fat) + used + OnChains(dir) == Interval(2, |fat|)
    ensures Free(fat) !! used && Free(fat) !! OnChains(dir) && used !! OnChains(dir)
  {
    hide Sound, OnChains;
    forall c | c in OnChains(dir) ensures 2 <= c < |fat| && fat[c] != 0 && c !in used { ChainMember(t, fat, dir, used, c); }
    forall c: nat | c in used ensures 2 <= c < |fat| && fat[c] != 0 { UsedMember(t, fat, dir, used, c); }
    forall c: nat | 2 <= c < |fat| && fat[c] != 0 && c !in used ensures c in OnChains(dir) { OtherMember(t, fat, dir, used, c); }
  }

  lemma ChainMember(t: FatType, fat: seq<nat>, dir: map<Place, seq<nat>>, used: set<nat>, c: nat)
    requires Sound(t, fat, dir, used) && c in OnChains(dir)
    ensures 2 <= c < |fat| && fat[c] != 0 && c !in used
  {
    var p, i :| p in dir && 0 <= i < |dir[p]| && dir[p][i] == c;
    ChainEntriesNonZero(t, fat, dir[p], i);
  }

  lemma UsedMember(t: FatType, fat: seq<nat>, dir: map<Place, seq<nat>>, used: set<nat>, c: nat)
    requires Sound(t, fat, dir, used) && c in used
    ensures 2 <= c < |fat| && fat[c] != 0
  {
  }

  lemma OtherMember(t: FatType, fat: seq<nat>, dir: map<Place, seq<nat>>, used: set<nat>, c: nat)
    requires Sound(t, fat, dir, used) && 2 <= c < |fat| && fat[c] != 0 && c !in used
    ensures c in OnChains(dir)
  {
    var p :| p in dir && c in dir[p];
    var i :| 0 <= i < |dir[p]| && dir[p][i] == c;
    assert dir[p][i] in OnChains(dir);
  }
}
