/** The allocation sweep of fat_allocClusterChain as a function of its position: behind the chain's last cluster up to
    cluster dcc, then once more from cluster 2. */
module Scans {
  import opened Bytes
  import opened Geometries
  import opened Chains

  /** What the sweep has taken when it stands at `cc`, before or after wrapping round. */
  function Taken(fat: seq<nat>, last: nat, dcc: nat, cc: nat, wrapped: bool): (xs: seq<nat>)
    requires |fat| == dcc + 2 && cc <= dcc + 1
  {
    if !wrapped then FreeIn(fat, last + 1, cc + 1)
    else FreeIn(fat, last + 1, dcc + 1) + FreeIn(fat, 2, if cc < LowEnd(last, dcc) then cc + 1 else LowEnd(last, dcc))
  }

  /** Positions the sweep can be at. */
  predicate At(last: nat, dcc: nat, cc: nat, wrapped: bool) {
    if wrapped then 2 <= cc <= dcc + 1 else cc == last <= dcc + 1 || last <= cc <= dcc
  }

  /** `now` is the FAT with free clusters `xs` linked behind `last`; the newest of them still has a zero entry, or is
      linked to itself. */
  ghost predicate Linked(fat: seq<nat>, last: nat, xs: seq<nat>, looped: bool, now: seq<nat>) {
    && 2 <= last < |fat| && fat[last] != 0
    && (forall i :: 0 <= i < |xs| ==> 2 <= xs[i] < |fat| && fat[xs[i]] == 0)
    && Distinct(xs)
    && now == (if looped then Link(fat, last, xs)[Tail(last, xs) := Tail(last, xs)] else Link(fat, last, xs))
    && (looped ==> xs != [])
  }

  lemma LinkMore(fat: seq<nat>, last: nat, xs: seq<nat>, now: seq<nat>, c: nat)
    requires Linked(fat, last, xs, false, now) && 2 <= c < |fat| && fat[c] == 0 && c !in xs
    ensures Tail(last, xs) < |now| && Linked(fat, last, xs + [c], false, now[Tail(last, xs) := c])
    ensures Tail(last, xs + [c]) == c
  {
    var ys := xs + [c];
    assert ys[..|ys| - 1] == xs;
  }

  lemma LinkLoop(fat: seq<nat>, last: nat, xs: seq<nat>, now: seq<nat>)
    requires Linked(fat, last, xs, false, now) && xs != []
    ensures Tail(last, xs) < |now| && Linked(fat, last, xs, true, now[Tail(last, xs) := Tail(last, xs)])
  {
  }

  /** The sweep's state at `cc`: what has been taken is linked, and the newest cluster is linked to itself exactly if it
      lies behind the chain's old end and the second sweep has come past it. */
  ghost predicate Swept(fat: seq<nat>, last: nat, dcc: nat, cc: nat, wrapped: bool, looped: bool, now: seq<nat>) {
    && |fat| == dcc + 2
    && At(last, dcc, cc, wrapped)
    && Linked(fat, last, Taken(fat, last, dcc, cc, wrapped), looped, now)
    && (looped <==> wrapped && last < Tail(last, Taken(fat, last, dcc, cc, wrapped)) <= cc)
  }

  /** The two sweeps together take the candidates in order. */
  lemma TakenIsPrefix(fat: seq<nat>, last: nat, dcc: nat, cc: nat, wrapped: bool)
    requires |fat| == dcc + 2 && At(last, dcc, cc, wrapped)
    ensures Taken(fat, last, dcc, cc, wrapped) <= Candidates(fat, last, dcc)
    ensures wrapped && (cc >= dcc || last < cc) ==> Taken(fat, last, dcc, cc, wrapped) == Candidates(fat, last, dcc)
  {
    hide FreeIn;
    if !wrapped {
      if cc <= dcc { FreeInPrefix(fat, last + 1, cc + 1, dcc + 1); }
      else { assert FreeIn(fat, last + 1, cc + 1) == [] by { Empty(fat, last + 1, cc + 1); } }
    } else {
      FreeInPrefix(fat, 2, if cc < LowEnd(last, dcc) then cc + 1 else LowEnd(last, dcc), LowEnd(last, dcc));
    }
  }

  lemma Empty(fat: seq<nat>, lo: nat, hi: nat)
    requires hi <= |fat| && hi <= lo
    ensures FreeIn(fat, lo, hi) == []
  {
  }

  lemma {:induction false} FreeInPrefix(fat: seq<nat>, lo: nat, mid: nat, hi: nat)
    requires mid <= hi <= |fat|
    ensures FreeIn(fat, lo, mid) <= FreeIn(fat, lo, hi)
    decreases hi
  {
    hide FreeIn, FreeList;
    if mid < hi && lo < hi {
      FreeInPrefix(fat, lo, mid, hi - 1);
      FreeInNext(fat, lo, hi - 1);
    } else if mid < hi {
      Empty(fat, lo, mid);
    }
  }

  /** Where the sweep looks next. */
  ghost predicate Moves(dcc: nat, cc: nat, wrapped: bool, cc': nat, wrapped': bool) {
    if cc + 1 < dcc + 1 then cc' == cc + 1 && wrapped' == wrapped
    else !wrapped && cc' == 2 && wrapped'
  }

  /** A free cluster the sweep meets for the first time. */
  ghost predicate Fresh(fat: seq<nat>, last: nat, dcc: nat, cc: nat, wrapped: bool) {
    cc < |fat| && fat[cc] == 0 && (!wrapped || cc < LowEnd(last, dcc))
  }

  /** What one look adds: the cluster looked at if it is a fresh one; a free cluster that is not fresh is taken already. */
  lemma TakenNext(fat: seq<nat>, last: nat, dcc: nat, cc: nat, wrapped: bool, cc': nat, wrapped': bool)
    requires |fat| == dcc + 2 && 2 <= last < |fat| && fat[last] != 0 && At(last, dcc, cc, wrapped)
    requires Moves(dcc, cc, wrapped, cc', wrapped')
    ensures At(last, dcc, cc', wrapped')
    ensures var xs, unseen := Taken(fat, last, dcc, cc, wrapped), Fresh(fat, last, dcc, cc', wrapped');
            && Taken(fat, last, dcc, cc', wrapped') == xs + (if unseen then [cc'] else [])
            && (unseen ==> cc' !in xs)
            && (fat[cc'] == 0 && !unseen ==> last < cc' && wrapped' && cc' in xs)
  {
    if !wrapped && !wrapped' {
      FreeInNext(fat, last + 1, cc');
    } else {
      TakenNextLow(fat, last, dcc, cc, wrapped, cc');
    }
  }

  /** The same for a look of the second sweep. */
  lemma TakenNextLow(fat: seq<nat>, last: nat, dcc: nat, cc: nat, wrapped: bool, cc': nat)
    requires |fat| == dcc + 2 && 2 <= last < |fat| && fat[last] != 0 && At(last, dcc, cc, wrapped)
    requires Moves(dcc, cc, wrapped, cc', true)
    ensures At(last, dcc, cc', true)
    ensures var xs, unseen := Taken(fat, last, dcc, cc, wrapped), Fresh(fat, last, dcc, cc', true);
            && Taken(fat, last, dcc, cc', true) == xs + (if unseen then [cc'] else [])
            && (unseen ==> cc' !in xs)
            && (fat[cc'] == 0 && !unseen ==> last < cc' && cc' in xs)
  {
    var hi, low := FreeIn(fat, last + 1, dcc + 1), LowEnd(last, dcc);
    var m := if wrapped && cc < low then cc + 1 else if wrapped then low else 2;
    var xs := Taken(fat, last, dcc, cc, wrapped);
    assert xs == hi + FreeIn(fat, 2, m);
    if cc' < low {
      assert m == cc';
      FreeInNext(fat, 2, cc');
      var more := if fat[cc'] == 0 then [cc'] else [];
      Assoc(hi, FreeIn(fat, 2, cc'), more);
    } else {
      assert m == low;
      assert xs + [] == xs;
      if fat[cc'] == 0 {
        assert cc' in hi;
      }
    }
  }

  lemma Assoc<T>(a: seq<T>, b: seq<T>, c: seq<T>)
    ensures a + (b + c) == a + b + c
  {
  }

  lemma FreeInNext(fat: seq<nat>, lo: nat, c: nat)
    requires lo <= c < |fat|
    ensures FreeIn(fat, lo, c + 1) == FreeIn(fat, lo, c) + if fat[c] == 0 then [c] else []
    ensures c !in FreeIn(fat, lo, c)
  {
  }

  /** A zero entry is a free cluster that is not linked, or the newest linked one. */
  lemma ZeroSeen(fat: seq<nat>, last: nat, xs: seq<nat>, looped: bool, now: seq<nat>, c: nat)
    requires Linked(fat, last, xs, looped, now) && c < |fat|
    ensures |now| == |fat|
    ensures c !in xs ==> (now[c] == 0 <==> fat[c] == 0)
    ensures c in xs ==> (now[c] == 0 <==> !looped && c == Tail(last, xs))
  {
    assert last !in xs;
    LinkEntries(fat, last, xs, c);
    if c in xs {
      var i :| 0 <= i < |xs| && xs[i] == c;
      if i < |xs| - 1 { assert Link(fat, last, xs)[c] == xs[i + 1]; }
    }
  }

  /** The sweep before its first look. */
  lemma SweepStart(fat: seq<nat>, last: nat, dcc: nat)
    requires |fat| == dcc + 2 && 2 <= last < |fat| && fat[last] != 0
    ensures Swept(fat, last, dcc, last, false, false, fat)
    ensures Taken(fat, last, dcc, last, false) == []
  {
  }

  /** Looking at the next cluster: a zero entry there is either a new cluster, which gets linked, or the newest cluster
      itself, which gets linked to itself; otherwise nothing changes. */
  lemma SweepStep(fat: seq<nat>, last: nat, dcc: nat, cc: nat, wrapped: bool, looped: bool, now: seq<nat>,
                  cc': nat, wrapped': bool)
    requires Swept(fat, last, dcc, cc, wrapped, looped, now) && Moves(dcc, cc, wrapped, cc', wrapped')
    ensures cc' < |now| == |fat| && At(last, dcc, cc', wrapped')
    ensures var xs, xs' := Taken(fat, last, dcc, cc, wrapped), Taken(fat, last, dcc, cc', wrapped');
            && Tail(last, xs) < |fat|
            && (now[cc'] != 0 ==> xs' == xs && Swept(fat, last, dcc, cc', wrapped', looped, now))
            && (now[cc'] == 0 ==>
                  && !looped
                  && (xs' == xs + [cc'] || (xs' == xs && Tail(last, xs) == cc'))
                  && Tail(last, xs') == cc'
                  && Swept(fat, last, dcc, cc', wrapped', xs' == xs, now[Tail(last, xs) := cc']))
  {
    hide Taken, Link, Distinct;
    TakenNext(fat, last, dcc, cc, wrapped, cc', wrapped');
    var xs := Taken(fat, last, dcc, cc, wrapped);
    ZeroSeen(fat, last, xs, looped, now, cc');
    var unseen := Fresh(fat, last, dcc, cc', wrapped');
    assert xs + [] == xs;
    assert Tail(last, xs) < |fat|;
    if unseen {
      LinkMore(fat, last, xs, now, cc');
    } else if now[cc'] == 0 {
      LinkLoop(fat, last, xs, now);
    }
  }

  // ---- what an allocation of n clusters amounts to ----

  /** The clusters an allocation of `n` takes. */
  function Chosen(fat: seq<nat>, last: nat, dcc: nat, n: nat): (xs: seq<nat>)
    requires |fat| == dcc + 2
    ensures |xs| <= n
  {
    var cands := Candidates(fat, last, dcc);
    if n <= |cands| then cands[..n] else cands
  }

  /** How many links the two sweeps can make: one for every candidate, and one more if the second sweep meets the newest
      cluster while its entry is still zero. */
  function Links(fat: seq<nat>, last: nat, dcc: nat): nat
    requires |fat| == dcc + 2
  {
    var cands := Candidates(fat, last, dcc);
    |cands| + if last < Tail(last, cands) then 1 else 0
  }

  /** The number fat_allocClusterChain returns, before it is cut to sixteen bits. */
  function Shortfall(fat: seq<nat>, last: nat, dcc: nat, n: nat): nat
    requires |fat| == dcc + 2
  {
    if n <= Links(fat, last, dcc) then 0 else Links(fat, last, dcc)
  }

  /** Closing the chain gives the extension by what was taken, loop or not. */
  lemma SweepCloses(t: FatType, fat: seq<nat>, last: nat, dcc: nat, cc: nat, wrapped: bool, looped: bool, now: seq<nat>)
    requires Swept(fat, last, dcc, cc, wrapped, looped, now)
    ensures var xs := Taken(fat, last, dcc, cc, wrapped);
            && |now| == |fat| && last < |fat| && (forall i :: 0 <= i < |xs| ==> xs[i] < |fat|)
            && now[Tail(last, xs) := GiveEoc(t)] == Extend(t, fat, last, xs)
  {
    hide Taken;
  }

  /** The sweep stops because it has made `n` links. */
  lemma SweepDone(fat: seq<nat>, last: nat, dcc: nat, cc: nat, wrapped: bool, looped: bool, now: seq<nat>, n: nat)
    requires Swept(fat, last, dcc, cc, wrapped, looped, now)
    requires n == |Taken(fat, last, dcc, cc, wrapped)| + (if looped then 1 else 0)
    ensures Taken(fat, last, dcc, cc, wrapped) == Chosen(fat, last, dcc, n)
    ensures n <= Links(fat, last, dcc)
  {
    hide Taken, Candidates, Linked, FreeIn;
    TakenIsPrefix(fat, last, dcc, cc, wrapped);
  }

  /** The sweep stops because it has come round twice. */
  lemma SweepExhausted(fat: seq<nat>, last: nat, dcc: nat, cc: nat, looped: bool, now: seq<nat>, n: nat)
    requires Swept(fat, last, dcc, cc, true, looped, now) && dcc <= cc
    requires n > |Taken(fat, last, dcc, cc, true)| + (if looped then 1 else 0)
    ensures Taken(fat, last, dcc, cc, true) == Chosen(fat, last, dcc, n)
    ensures n > Links(fat, last, dcc) == |Taken(fat, last, dcc, cc, true)| + (if looped then 1 else 0)
  {
    hide FreeIn, Linked;
    var xs := Taken(fat, last, dcc, cc, true);
    TakenIsPrefix(fat, last, dcc, cc, true);
    assert xs != [] ==> Tail(last, xs) <= dcc by {
      if FreeIn(fat, 2, LowEnd(last, dcc)) == [] { assert xs == FreeIn(fat, last + 1, dcc + 1); }
      else { assert Tail(last, xs) == Tail(last, FreeIn(fat, 2, LowEnd(last, dcc))); }
    }
  }

  /** The clusters chosen are free, distinct and in range; there are min(n, free clusters in 2..dcc) of them. */
  lemma ChosenFacts(fat: seq<nat>, last: nat, dcc: nat, n: nat)
    requires |fat| == dcc + 2 && 2 <= last < |fat| && fat[last] != 0
    ensures var xs := Chosen(fat, last, dcc, n);
            && (forall i :: 0 <= i < |xs| ==> 2 <= xs[i] < |fat| && fat[xs[i]] == 0)
            && Distinct(xs)
            && |xs| == if n <= |Candidates(fat, last, dcc)| then n else |Candidates(fat, last, dcc)|
  {
    CandidatesExact(fat, last, dcc);
    hide Candidates;
  }

  /** When fat_allocClusterChain, whose result has sixteen bits, reports success for `n` clusters: there are enough free
      clusters, or none at all, or all but one and the second sweep comes past the newest of them; or it stopped short
      after a multiple of 65536 links. */
  lemma ReportsSuccess(fat: seq<nat>, last: nat, dcc: nat, n: nat)
    requires |fat| == dcc + 2
    ensures var cands := Candidates(fat, last, dcc);
            Int16(Shortfall(fat, last, dcc, n)) == 0 <==>
              || n <= |cands| || cands == [] || (n == |cands| + 1 && last < Tail(last, cands))
              || (n > Links(fat, last, dcc) && Links(fat, last, dcc) % UINT16 == 0)
  {
    hide Candidates;
    CutToZero(Shortfall(fat, last, dcc, n));
  }

  lemma CutToZero(x: nat)
    ensures Int16(x) == 0 <==> x % UINT16 == 0
  {
  }

  /** A FAT with entries 0 to 65539: clusters 2 to 65537 are free, the last two are used. */
  function ManyFree(): (fat: seq<nat>)
    ensures |fat| == 65540
    ensures forall c :: 0 <= c < 65540 ==> (fat[c] == 0 <==> 2 <= c < 65538)
  {
    seq(65540, c requires 0 <= c < 65540 => if 2 <= c < 65538 then 0 else 0x0FFF_FFFF)
  }

  /** On it an allocation of 65537 clusters behind cluster 65538 makes 65536 links, stops short, and reports success. */
  lemma ShortOfManyReportsSuccess()
    ensures var fat := ManyFree();
            && Links(fat, 65538, 65538) == 65536 == |Chosen(fat, 65538, 65538, 65537)|
            && Shortfall(fat, 65538, 65538, 65537) == 65536 && Int16(Shortfall(fat, 65538, 65538, 65537)) == 0
  {
    hide ManyFree, FreeIn;
    var fat := ManyFree();
    NoneFree(fat, 65539, 65539);
    AllFree(fat, 2, 65538);
    FreeInNext(fat, 2, 65538);
    var lo := FreeIn(fat, 2, 65539);
    assert lo == FreeIn(fat, 2, 65538);
    assert Candidates(fat, 65538, 65538) == lo;
    hide Candidates;
    assert Tail(65538, lo) < 65538;
  }

  /** Free clusters in a row. */
  lemma {:induction false} AllFree(fat: seq<nat>, lo: nat, hi: nat)
    requires lo <= hi <= |fat| && forall c :: lo <= c < hi ==> fat[c] == 0
    ensures |FreeIn(fat, lo, hi)| == hi - lo
    decreases hi
  {
    hide FreeIn, FreeList;
    if lo < hi {
      AllFree(fat, lo, hi - 1);
      FreeInNext(fat, lo, hi - 1);
    } else {
      Empty(fat, lo, hi);
    }
  }

  // ---- allocating in several steps ----

  /** The free clusters of two ranges side by side. */
  lemma {:induction false} FreeInSplit(fat: seq<nat>, lo: nat, mid: nat, hi: nat)
    requires lo <= mid <= hi <= |fat|
    ensures FreeIn(fat, lo, hi) == FreeIn(fat, lo, mid) + FreeIn(fat, mid, hi)
    decreases hi
  {
    hide FreeIn, FreeList;
    if mid == hi {
      Empty(fat, mid, hi);
      assert FreeIn(fat, lo, hi) + [] == FreeIn(fat, lo, hi);
    } else {
      FreeInSplit(fat, lo, mid, hi - 1);
      FreeInNext(fat, lo, hi - 1);
      FreeInNext(fat, mid, hi - 1);
      Assoc(FreeIn(fat, lo, mid), FreeIn(fat, mid, hi - 1), if fat[hi - 1] == 0 then [hi - 1] else []);
    }
  }

  /** They depend on which entries are zero only. */
  lemma {:induction false} FreeInSame(fat: seq<nat>, fat': seq<nat>, lo: nat, hi: nat)
    requires hi <= |fat| && hi <= |fat'| && forall c :: lo <= c < hi ==> (fat[c] == 0 <==> fat'[c] == 0)
    ensures FreeIn(fat, lo, hi) == FreeIn(fat', lo, hi)
    decreases hi
  {
    hide FreeIn, FreeList;
    if lo < hi {
      FreeInSame(fat, fat', lo, hi - 1);
      FreeInNext(fat, lo, hi - 1);
      FreeInNext(fat', lo, hi - 1);
    } else {
      Empty(fat, lo, hi);
      Empty(fat', lo, hi);
    }
  }

  /** The clusters of `xs` are not free any more, all others are as they were. */
  ghost predicate TakenAway(fat: seq<nat>, xs: seq<nat>, fat': seq<nat>) {
    |fat'| == |fat| && forall c :: 2 <= c < |fat| ==> (fat'[c] == 0 <==> fat[c] == 0 && c !in xs)
  }

  /** Ascending: what is behind element `n - 1` of the free clusters of a range, and what is before. */
  lemma {:induction false} FreeInAt(fat: seq<nat>, lo: nat, hi: nat, n: nat)
    requires 2 <= lo <= hi <= |fat| && 0 < n <= |FreeIn(fat, lo, hi)|
    ensures var xs := FreeIn(fat, lo, hi);
            && lo <= xs[n - 1] < hi
            && xs[..n] == FreeIn(fat, lo, xs[n - 1] + 1) && xs[n..] == FreeIn(fat, xs[n - 1] + 1, hi)
    decreases hi
  {
    hide FreeIn, FreeList;
    var xs := FreeIn(fat, lo, hi);
    var x := xs[n - 1];
    ListedFree(fat, lo, hi, xs, n - 1);
    FreeInSplit(fat, lo, x + 1, hi);
    FreeInSplit(fat, lo, x, x + 1);
    FreeInNext(fat, x, x);
    Empty(fat, x, x);
    var ys, zs := FreeIn(fat, lo, x + 1), FreeIn(fat, x + 1, hi);
    assert xs == ys + zs && ys == FreeIn(fat, lo, x) + [x];
    SamePlace(fat, lo, hi, xs, n - 1, |ys| - 1);
  }

  lemma ListedFree(fat: seq<nat>, lo: nat, hi: nat, xs: seq<nat>, i: nat)
    requires FreeList(fat, lo, hi, xs) && i < |xs|
    ensures lo <= xs[i] < hi && xs[i] < |fat| && fat[xs[i]] == 0
  {
  }

  /** An ascending sequence has no element twice. */
  lemma SamePlace(fat: seq<nat>, lo: nat, hi: nat, xs: seq<nat>, i: nat, j: nat)
    requires FreeList(fat, lo, hi, xs) && i < |xs| && j < |xs| && xs[i] == xs[j]
    ensures i == j
  {
  }

  lemma FreeInIff(fat: seq<nat>, lo: nat, hi: nat, c: nat)
    requires hi <= |fat|
    ensures c in FreeIn(fat, lo, hi) <==> lo <= c < hi && fat[c] == 0
  {
  }

  /** A range none of whose free clusters was taken, and one all of whose were. */
  lemma RangeKept(fat: seq<nat>, xs: seq<nat>, fat': seq<nat>, lo: nat, hi: nat)
    requires TakenAway(fat, xs, fat') && 2 <= lo && hi <= |fat| && forall i :: 0 <= i < |xs| ==> !(lo <= xs[i] < hi)
    ensures FreeIn(fat', lo, hi) == FreeIn(fat, lo, hi)
  {
    hide FreeIn, FreeList;
    FreeInSame(fat, fat', lo, hi);
  }

  lemma RangeGone(fat: seq<nat>, xs: seq<nat>, fat': seq<nat>, lo: nat, hi: nat, ys: seq<nat>)
    requires TakenAway(fat, xs, fat') && 2 <= lo && hi <= |fat| && ys == FreeIn(fat, lo, hi)
    requires forall i :: 0 <= i < |ys| ==> ys[i] in xs
    ensures FreeIn(fat', lo, hi) == []
  {
    hide FreeIn, FreeList;
    forall c | lo <= c < hi ensures fat'[c] != 0 {
      FreeInIff(fat, lo, hi, c);
    }
    NoneFree(fat', lo, hi);
  }

  /** Allocating in two steps takes the same clusters in the same order as allocating at once. */
  lemma CandidatesAfter(fat: seq<nat>, last: nat, dcc: nat, n: nat, fat': seq<nat>)
    requires |fat| == dcc + 2 && 2 <= last < |fat| && fat[last] != 0 && n <= |Candidates(fat, last, dcc)|
    requires TakenAway(fat, Candidates(fat, last, dcc)[..n], fat')
    ensures Candidates(fat', Tail(last, Candidates(fat, last, dcc)[..n]), dcc) == Candidates(fat, last, dcc)[n..]
  {
    hide FreeIn, FreeList;
    var hi, lo := FreeIn(fat, last + 1, dcc + 1), FreeIn(fat, 2, LowEnd(last, dcc));
    assert Candidates(fat, last, dcc) == hi + lo && |fat'| == |fat|;
    hide TakenAway;
    if n == 0 {
      RangeKept(fat, [], fat', last + 1, dcc + 1);
      RangeKept(fat, [], fat', 2, LowEnd(last, dcc));
    } else if n <= |hi| {
      assert (hi + lo)[..n] == hi[..n] && (hi + lo)[n..] == hi[n..] + lo;
      AfterHigh(fat, last, dcc, n, fat');
    } else {
      assert (hi + lo)[..n] == hi + lo[..n - |hi|] && (hi + lo)[n..] == lo[n - |hi|..];
      AfterLow(fat, last, dcc, n - |hi|, fat');
    }
  }

  /** The first sweep stopped. */
  lemma AfterHigh(fat: seq<nat>, last: nat, dcc: nat, n: nat, fat': seq<nat>)
    requires |fat'| == |fat| == dcc + 2 && 2 <= last < |fat| && fat[last] != 0 && 0 < n <= |FreeIn(fat, last + 1, dcc + 1)|
    requires TakenAway(fat, FreeIn(fat, last + 1, dcc + 1)[..n], fat')
    ensures var hi, lo := FreeIn(fat, last + 1, dcc + 1), FreeIn(fat, 2, LowEnd(last, dcc));
            Candidates(fat', hi[n - 1], dcc) == hi[n..] + lo
  {
    hide FreeIn, FreeList, TakenAway;
    var hi := FreeIn(fat, last + 1, dcc + 1);
    if last > dcc { Empty(fat, last + 1, dcc + 1); }
    FreeInAt(fat, last + 1, dcc + 1, n);
    var x, xs := hi[n - 1], hi[..n];
    Bounds(fat, last + 1, x + 1, xs);
    RangeKept(fat, xs, fat', x + 1, dcc + 1);
    FreeInSplit(fat', 2, last + 1, x + 1);
    RangeKept(fat, xs, fat', 2, last + 1);
    RangeGone(fat, xs, fat', last + 1, x + 1, xs);
    assert FreeIn(fat', 2, x + 1) == FreeIn(fat, 2, last + 1) + [];
  }

  lemma Bounds(fat: seq<nat>, lo: nat, hi: nat, xs: seq<nat>)
    requires hi <= |fat| && xs == FreeIn(fat, lo, hi)
    ensures forall i :: 0 <= i < |xs| ==> lo <= xs[i] < hi
  {
  }

  /** The second sweep stopped, `m` clusters into it. */
  lemma AfterLow(fat: seq<nat>, last: nat, dcc: nat, m: nat, fat': seq<nat>)
    requires |fat'| == |fat| == dcc + 2 && 2 <= last < |fat| && fat[last] != 0 && 0 < m <= |FreeIn(fat, 2, LowEnd(last, dcc))|
    requires TakenAway(fat, FreeIn(fat, last + 1, dcc + 1) + FreeIn(fat, 2, LowEnd(last, dcc))[..m], fat')
    ensures var lo := FreeIn(fat, 2, LowEnd(last, dcc));
            Candidates(fat', lo[m - 1], dcc) == lo[m..]
  {
    hide FreeIn, FreeList, TakenAway;
    var low := LowEnd(last, dcc);
    var hi, lo := FreeIn(fat, last + 1, dcc + 1), FreeIn(fat, 2, low);
    FreeInAt(fat, 2, low, m);
    var x, xs := lo[m - 1], hi + lo[..m];
    Bounds(fat, 2, x + 1, lo[..m]);
    Bounds(fat, last + 1, dcc + 1, hi);
    FreeInSplit(fat', x + 1, low, dcc + 1);
    RangeKept(fat, xs, fat', x + 1, low);
    if last <= dcc {
      RangeGone(fat, xs, fat', low, dcc + 1, hi);
    } else {
      Empty(fat', low, dcc + 1);
    }
    RangeGone(fat, xs, fat', 2, x + 1, lo[..m]);
    assert FreeIn(fat', x + 1, dcc + 1) == FreeIn(fat, x + 1, low) + [];
  }
}
