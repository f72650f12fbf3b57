/** Cluster chains over a FAT seen as a sequence of entries: what a chain is, which clusters an extension takes, and
    what linking and unlinking do to this and to other chains. */
module Chains {
  import opened Geometries

  /** The least end-of-chain value. */
  function EocMin(t: FatType): nat {
    match t case FAT12 => 0xFF8 case FAT16 => 0xFFF8 case FAT32 => 0xFFFFFF8
  }

  /** fat_isEocMarker: the upper four bits of a 32-bit entry are ignored. */
  predicate IsEoc(t: FatType, entry: nat) {
    (if t == FAT32 then entry % 0x1000_0000 else entry) >= EocMin(t)
  }

  /** fat_giveEocMarker */
  function GiveEoc(t: FatType): (e: nat)
    ensures IsEoc(t, e)
  {
    match t case FAT12 => 0xFFF case FAT16 => 0xFFFF case FAT32 => 0x0FFF_FFFF
  }

  /** The marks by their numbers. */
  lemma EndMarks(entry: nat)
    ensures IsEoc(FAT12, entry) <==> entry >= 0xFF8
    ensures IsEoc(FAT16, entry) <==> entry >= 0xFFF8
    ensures IsEoc(FAT32, entry) <==> entry % 0x1000_0000 >= 0x0FFF_FFF8
    ensures GiveEoc(FAT12) == 0xFFF && GiveEoc(FAT16) == 0xFFFF && GiveEoc(FAT32) == 0x0FFF_FFFF
  {
  }

  /** The FAT is small enough that no cluster number, nor the one after the last, is an end-of-chain value. */
  predicate Numbered(t: FatType, fat: seq<nat>) {
    2 <= |fat| < EocMin(t)
  }

  /** `ch` is the chain that starts at its first cluster: each entry names the next cluster, the last one is an
      end-of-chain value. */
  ghost predicate IsChain(t: FatType, fat: seq<nat>, ch: seq<nat>) {
    ChainFrom(t, fat, ch, 0)
  }

  /** The links of `ch` hold from position `p` on. */
  ghost predicate ChainFrom(t: FatType, fat: seq<nat>, ch: seq<nat>, p: nat) {
    && p < |ch|
    && (forall i :: 0 <= i < |ch| ==> 2 <= ch[i] < |fat|)
    && (forall i :: p <= i < |ch| - 1 ==> fat[ch[i]] == ch[i + 1])
    && IsEoc(t, fat[ch[|ch| - 1]])
  }

  ghost predicate Distinct(xs: seq<nat>) {
    forall i, j :: 0 <= i < j < |xs| ==> xs[i] != xs[j]
  }

  /** The clusters on a chain are used. */
  lemma ChainEntriesNonZero(t: FatType, fat: seq<nat>, ch: seq<nat>, i: nat)
    requires IsChain(t, fat, ch) && i < |ch|
    ensures fat[ch[i]] != 0
  {
    if i < |ch| - 1 { assert fat[ch[i]] == ch[i + 1]; }
  }

  /** A chain that reaches its end never visits a cluster twice. */
  lemma ChainDistinct(t: FatType, fat: seq<nat>, ch: seq<nat>)
    requires Numbered(t, fat) && IsChain(t, fat, ch)
    ensures Distinct(ch)
  {
    forall i, j | 0 <= i < j < |ch| ensures ch[i] != ch[j] {
      NoRepeat(t, fat, ch, i, j);
    }
  }

  lemma {:induction false} NoRepeat(t: FatType, fat: seq<nat>, ch: seq<nat>, i: nat, j: nat)
    requires Numbered(t, fat) && IsChain(t, fat, ch) && i < j < |ch|
    ensures ch[i] != ch[j]
    decreases |ch| - j
  {
    assert fat[ch[i]] == ch[i + 1] && !IsEoc(t, ch[i + 1]);
    if j + 1 < |ch| {
      NoRepeat(t, fat, ch, i + 1, j + 1);
      assert fat[ch[j]] == ch[j + 1];
    }
  }

  /** Chains are determined by their first cluster. */
  lemma ChainsAgree(t: FatType, fat: seq<nat>, ch: seq<nat>, ch': seq<nat>, i: nat)
    requires Numbered(t, fat) && IsChain(t, fat, ch) && IsChain(t, fat, ch') && ch[0] == ch'[0] && i < |ch|
    ensures i < |ch'| && ch[i] == ch'[i]
  {
    if i > 0 {
      ChainsAgree(t, fat, ch, ch', i - 1);
      assert fat[ch[i - 1]] == ch[i] && !IsEoc(t, ch[i]);
    }
  }

  lemma ChainUnique(t: FatType, fat: seq<nat>, ch: seq<nat>, ch': seq<nat>)
    requires Numbered(t, fat) && IsChain(t, fat, ch) && IsChain(t, fat, ch') && ch[0] == ch'[0]
    ensures ch == ch'
  {
    ChainsAgree(t, fat, ch, ch', |ch| - 1);
    ChainsAgree(t, fat, ch', ch, |ch'| - 1);
    forall i | 0 <= i < |ch| ensures ch[i] == ch'[i] {
      ChainsAgree(t, fat, ch, ch', i);
    }
  }

  /** A chain depends only on the entries of its own clusters. */
  lemma ChainFrame(t: FatType, fat: seq<nat>, fat': seq<nat>, ch: seq<nat>)
    requires IsChain(t, fat, ch) && |fat'| == |fat|
    requires forall i :: 0 <= i < |ch| ==> fat'[ch[i]] == fat[ch[i]]
    ensures IsChain(t, fat', ch)
  {
  }

  /** What the entry of a chain's cluster says: the next cluster, or the end. */
  lemma NextInChain(t: FatType, fat: seq<nat>, ch: seq<nat>, p: nat, i: nat)
    requires Numbered(t, fat) && ChainFrom(t, fat, ch, p) && p <= i < |ch|
    ensures IsEoc(t, fat[ch[i]]) <==> i == |ch| - 1
    ensures i < |ch| - 1 ==> fat[ch[i]] == ch[i + 1]
    ensures !IsEoc(t, ch[i] + 1) && 2 <= ch[i] < |fat|
    ensures i < |ch| - 1 ==> 2 <= ch[i + 1]
  {
  }

  // ---- contiguous runs ----

  /** Position `logic` of the chain is cluster `disc`, and the `linear` clusters after it follow it on the disc. */
  ghost predicate Run(ch: seq<nat>, logic: nat, disc: nat, linear: nat) {
    && logic + linear < |ch|
    && (forall i :: logic <= i <= logic + linear ==> ch[i] == disc + (i - logic))
  }

  lemma RunStart(ch: seq<nat>, logic: nat)
    requires logic < |ch|
    ensures Run(ch, logic, ch[logic], 0)
  {
  }

  /** Moving `k` clusters inside a run needs no FAT access. */
  lemma RunSkip(ch: seq<nat>, logic: nat, disc: nat, linear: nat, k: nat)
    requires Run(ch, logic, disc, linear) && k <= linear
    ensures Run(ch, logic + k, disc + k, linear - k)
    ensures logic < |ch| && disc == ch[logic] && Run(ch, logic, disc, k)
    ensures ch[logic + k] == disc + k
  {
  }

  // ---- free clusters ----

  /** `xs` are the free clusters of [lo, hi) in ascending order. */
  ghost predicate FreeList(fat: seq<nat>, lo: nat, hi: nat, xs: seq<nat>) {
    && (forall i :: 0 <= i < |xs| ==> lo <= xs[i] < hi && xs[i] < |fat| && fat[xs[i]] == 0)
    && (forall i, j :: 0 <= i < j < |xs| ==> xs[i] < xs[j])
    && (forall c :: lo <= c < hi && c < |fat| && fat[c] == 0 ==> c in xs)
  }

  function FreeIn(fat: seq<nat>, lo: nat, hi: nat): (xs: seq<nat>)
    requires hi <= |fat|
    ensures FreeList(fat, lo, hi, xs)
  {
    if hi <= lo then [] else FreeIn(fat, lo, hi - 1) + if fat[hi - 1] == 0 then [hi - 1] else []
  }

  lemma FirstFree(fat: seq<nat>, lo: nat, hi: nat, c: nat)
    requires lo <= c < hi <= |fat| && fat[c] == 0
    requires forall i :: lo <= i < c ==> fat[i] != 0
    ensures FreeIn(fat, lo, hi) != [] && FreeIn(fat, lo, hi)[0] == c
  {
    var xs := FreeIn(fat, lo, hi);
    assert c in xs;
    assert xs[0] <= c && fat[xs[0]] == 0;
  }

  lemma NoneFree(fat: seq<nat>, lo: nat, hi: nat)
    requires hi <= |fat| && forall i :: lo <= i < hi ==> fat[i] != 0
    ensures FreeIn(fat, lo, hi) == []
  {
    if lo < hi { NoneFree(fat, lo, hi - 1); }
  }

  /** The clusters an extension of a chain ending in `last` can take, in the order it takes them: free clusters
      behind the chain's end up to cluster dcc, then free clusters from 2 up to the chain's end. */
  function Candidates(fat: seq<nat>, last: nat, dcc: nat): (xs: seq<nat>)
    requires |fat| == dcc + 2
  {
    FreeIn(fat, last + 1, dcc + 1) + FreeIn(fat, 2, LowEnd(last, dcc))
  }

  /** The first cluster the second sweep need not look at. */
  function LowEnd(last: nat, dcc: nat): nat {
    if last <= dcc then last + 1 else dcc + 1
  }

  /** The candidates are exactly the free clusters in 2..dcc, each once. */
  lemma CandidatesExact(fat: seq<nat>, last: nat, dcc: nat)
    requires |fat| == dcc + 2 && 2 <= last < |fat| && fat[last] != 0
    ensures Distinct(Candidates(fat, last, dcc))
    ensures forall c :: c in Candidates(fat, last, dcc) <==> 2 <= c <= dcc && fat[c] == 0
    ensures forall i :: 0 <= i < |Candidates(fat, last, dcc)| ==>
                          2 <= Candidates(fat, last, dcc)[i] < |fat| && fat[Candidates(fat, last, dcc)[i]] == 0
  {
    var xs := Candidates(fat, last, dcc);
    forall c ensures c in xs <==> 2 <= c <= dcc && fat[c] == 0 { CandidateIff(fat, last, dcc, c); }
    forall i | 0 <= i < |xs| ensures 2 <= xs[i] < |fat| && fat[xs[i]] == 0 { assert xs[i] in xs; }
    var hi, lo := FreeIn(fat, last + 1, dcc + 1), FreeIn(fat, 2, LowEnd(last, dcc));
    forall i, j | 0 <= i < j < |xs| ensures xs[i] != xs[j] {
      if i < |hi| <= j { assert xs[i] == hi[i] && xs[j] == lo[j - |hi|]; }
    }
  }

  /** First come the candidates behind the chain's end, then those in front of it, both in ascending order. */
  lemma CandidatesInOrder(fat: seq<nat>, last: nat, dcc: nat, i: nat, j: nat)
    requires |fat| == dcc + 2 && 2 <= last < |fat| && fat[last] != 0 && i < j < |Candidates(fat, last, dcc)|
    ensures var a, b := Candidates(fat, last, dcc)[i], Candidates(fat, last, dcc)[j];
            if last < b then last < a < b else b < last && (last < a || a < b)
  {
    var hi, lo := FreeIn(fat, last + 1, dcc + 1), FreeIn(fat, 2, LowEnd(last, dcc));
    var xs := Candidates(fat, last, dcc);
    assert if i < |hi| then xs[i] == hi[i] else xs[i] == lo[i - |hi|];
    assert if j < |hi| then xs[j] == hi[j] else xs[j] == lo[j - |hi|];
  }

  lemma CandidateIff(fat: seq<nat>, last: nat, dcc: nat, c: int)
    requires |fat| == dcc + 2 && 2 <= last < |fat| && fat[last] != 0
    ensures c in Candidates(fat, last, dcc) <==> 2 <= c <= dcc && fat[c] == 0
  {
    var hi, lo := FreeIn(fat, last + 1, dcc + 1), FreeIn(fat, 2, LowEnd(last, dcc));
    assert c in Candidates(fat, last, dcc) <==> c in hi || c in lo;
  }

  // ---- linking ----

  function Tail(tail: nat, xs: seq<nat>): nat {
    if xs == [] then tail else xs[|xs| - 1]
  }

  /** `tail` linked to the first of `xs`, and each of `xs` to the next; the entry of the last of them is left alone. */
  function Link(fat: seq<nat>, tail: nat, xs: seq<nat>): (f: seq<nat>)
    requires tail < |fat| && forall i :: 0 <= i < |xs| ==> xs[i] < |fat|
    ensures |f| == |fat|
  {
    if xs == [] then fat
    else Link(fat, tail, xs[..|xs| - 1])[Tail(tail, xs[..|xs| - 1]) := xs[|xs| - 1]]
  }

  /** The chain closed after linking. */
  function Extend(t: FatType, fat: seq<nat>, tail: nat, xs: seq<nat>): (f: seq<nat>)
    requires tail < |fat| && forall i :: 0 <= i < |xs| ==> xs[i] < |fat|
    ensures |f| == |fat|
  {
    Link(fat, tail, xs)[Tail(tail, xs) := GiveEoc(t)]
  }

  lemma {:induction false} LinkEntries(fat: seq<nat>, tail: nat, xs: seq<nat>, c: nat)
    requires tail < |fat| && c < |fat| && (forall i :: 0 <= i < |xs| ==> xs[i] < |fat|)
    requires Distinct(xs) && tail !in xs
    ensures c != tail && c !in xs ==> Link(fat, tail, xs)[c] == fat[c]
    ensures c == Tail(tail, xs) ==> Link(fat, tail, xs)[c] == fat[c]
    ensures xs != [] && c == tail ==> Link(fat, tail, xs)[c] == xs[0]
    ensures forall i :: 0 <= i < |xs| - 1 && c == xs[i] ==> Link(fat, tail, xs)[c] == xs[i + 1]
  {
    if xs != [] {
      var ys := xs[..|xs| - 1];
      LinkEntries(fat, tail, ys, c);
      assert Tail(tail, ys) != xs[|xs| - 1];
      forall i | 0 <= i < |xs| - 1 && c == xs[i] ensures Link(fat, tail, xs)[c] == xs[i + 1] {
        assert ys[i] == c;
        if i < |ys| - 1 { assert c != ys[|ys| - 1] && c != tail; }
      }
    }
  }

  /** Extending a chain by unused clusters makes the longer chain. */
  lemma ExtendIsChain(t: FatType, fat: seq<nat>, ch: seq<nat>, xs: seq<nat>)
    requires Numbered(t, fat) && IsChain(t, fat, ch)
    requires forall i :: 0 <= i < |xs| ==> 2 <= xs[i] < |fat| && fat[xs[i]] == 0
    requires Distinct(xs)
    ensures IsChain(t, Extend(t, fat, ch[|ch| - 1], xs), ch + xs)
  {
    var tail, ch' := ch[|ch| - 1], ch + xs;
    var fat' := Extend(t, fat, tail, xs);
    ChainDistinct(t, fat, ch);
    forall i | 0 <= i < |ch| ensures ch[i] !in xs { ChainEntriesNonZero(t, fat, ch, i); }
    assert ch'[|ch'| - 1] == Tail(tail, xs);
    forall i | 0 <= i < |ch'| - 1 ensures fat'[ch'[i]] == ch'[i + 1] {
      LinkEntries(fat, tail, xs, ch'[i]);
      if i < |ch| - 1 {
        assert ch'[i] == ch[i] && ch'[i + 1] == ch[i + 1] && fat[ch[i]] == ch[i + 1];
        assert ch[i] != tail && ch[i] !in xs;
      } else if i >= |ch| {
        assert ch'[i] == xs[i - |ch|];
      }
    }
  }

  /** Extending changes no entry but the old tail's and the new clusters'. */
  lemma ExtendFrame(t: FatType, fat: seq<nat>, tail: nat, xs: seq<nat>, c: nat)
    requires tail < |fat| && c < |fat| && (forall i :: 0 <= i < |xs| ==> xs[i] < |fat|)
    requires Distinct(xs) && tail !in xs && c != tail && c !in xs
    ensures Extend(t, fat, tail, xs)[c] == fat[c]
  {
    LinkEntries(fat, tail, xs, c);
  }

  // ---- unlinking ----

  /** All entries of `xs` cleared. */
  function Cleared(fat: seq<nat>, xs: seq<nat>): (f: seq<nat>)
    requires forall i :: 0 <= i < |xs| ==> xs[i] < |fat|
    ensures |f| == |fat|
    ensures forall c :: 0 <= c < |fat| ==> f[c] == if c in xs then 0 else fat[c]
  {
    if xs == [] then fat
    else
      var ys := xs[..|xs| - 1];
      assert xs == ys + [xs[|xs| - 1]];
      Cleared(fat, ys)[xs[|xs| - 1] := 0]
  }

  lemma ClearMore(fat: seq<nat>, xs: seq<nat>, k: nat)
    requires k < |xs| && forall i :: 0 <= i < |xs| ==> xs[i] < |fat|
    ensures Cleared(fat, xs[..k])[xs[k] := 0] == Cleared(fat, xs[..k + 1])
  {
    assert xs[..k + 1][..k] == xs[..k];
  }

  /** Clearing the first `k` clusters leaves the rest of the chain intact. */
  lemma ClearedPrefix(t: FatType, fat: seq<nat>, ch: seq<nat>, k: nat)
    requires Numbered(t, fat) && IsChain(t, fat, ch) && k < |ch|
    ensures ChainFrom(t, Cleared(fat, ch[..k]), ch, k)
  {
    ChainDistinct(t, fat, ch);
    var fat' := Cleared(fat, ch[..k]);
    forall i | k <= i < |ch| ensures fat'[ch[i]] == fat[ch[i]] {
      assert ch[i] !in ch[..k];
    }
  }

  /** The clusters a walk visits: a file without clusters has its one step on disc cluster 0. */
  function Visited(ch: seq<nat>): (vs: seq<nat>)
    ensures vs != []
  {
    if ch == [] then [0] else ch
  }

  lemma VisitedInRange(t: FatType, fat: seq<nat>, ch: seq<nat>)
    requires 0 < |fat| && (ch != [] ==> IsChain(t, fat, ch))
    ensures forall i :: 0 <= i < |Visited(ch)| ==> Visited(ch)[i] < |fat|
    ensures |Visited(ch)| > 1 ==> forall i :: 0 <= i < |Visited(ch)| ==> Visited(ch)[i] != 0
    ensures ch != [] ==> Visited(ch) == ch
    ensures Cleared(fat, Visited(ch)[..0]) == fat
  {
  }

  lemma FirstInRange(t: FatType, fat: seq<nat>, ch: seq<nat>, p: nat)
    requires ChainFrom(t, fat, ch, p)
    ensures 2 <= ch[0] < |fat| && p < |ch|
  {
  }

  lemma LastInRange(t: FatType, fat: seq<nat>, ch: seq<nat>)
    requires IsChain(t, fat, ch)
    ensures ch != [] && 2 <= ch[|ch| - 1] < |fat| && fat[ch[|ch| - 1]] != 0
  {
  }
}
