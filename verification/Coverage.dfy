/** When the FAT of a formatted volume has room for the entries of all clusters, the two reserved ones included. */
module Coverage {
  import opened Arith
  import opened Bytes
  import opened Mkfs

  /** What is left when the sectors behind the reserved ones are dealt out in portions of one FAT sector in each copy and
      the 128 clusters it covers. */
  function Portions(ns: nat, c: nat): nat
    requires ns >= RESERVED
  {
    Div(ns - RESERVED, 128 * c + 2)
  }

  function Leftover(ns: nat, c: nat): nat
    requires ns >= RESERVED
  {
    Mod(ns - RESERVED, 128 * c + 2)
  }

  /** The condition: the leftover sectors make at least one cluster, but not so many that the last FAT sector is full. */
  predicate Covers(ns: nat, c: nat)
    requires ns >= RESERVED
  {
    c <= Leftover(ns, c) < 127 * c + 2
  }

  /** The portions, `p` being the clusters of a sector's worth in all of them. */
  lemma Dealt(ns: nat, c: nat) returns (q: nat, r: nat, p: nat)
    requires Sized(ns, c)
    ensures q == Portions(ns, c) && r == Leftover(ns, c) < 128 * c + 2 && p == c * q
    ensures ns - RESERVED == 128 * p + 2 * q + r && 0 < q
  {
    var n, m := ns - RESERVED, 128 * c + 2;
    q, r, p := n / m, n % m, c * (n / m);
    DivMod(n, m);
    assert q * m == 128 * (c * q) + 2 * q;
  }

  lemma PerAtLeast(x: nat, c: nat, k: nat)
    requires c > 0
    ensures Per(x, c) >= k <==> x >= k * c
  {
    DivMod(x, c);
    if Per(x, c) >= k {
      MulMono(k, x / c, c);
    } else {
      MulMono(x / c + 1, k, c);
      assert (x / c + 1) * c == x / c * c + c;
    }
  }

  /** How the estimate `y` that follows `x` lies to the number of portions. */
  predicate Follows(c: nat, q: nat, r: nat, x: nat, y: nat) {
    && (y >= q <==> 2 * q + r - 2 * x >= -127 * c)
    && (y >= q + 1 <==> 2 * q + r - 2 * x >= c)
    && (y >= q + 2 <==> 2 * q + r - 2 * x >= 129 * c)
  }

  lemma GuessFollows(ns: nat, c: nat, q: nat, r: nat, x: nat, y: nat)
    requires c > 0 && q > 0 && ns - RESERVED == 128 * (c * q) + 2 * q + r && 2 * x <= ns - RESERVED
    requires y == (Per(ns - RESERVED - 2 * x, c) + 127) / 128
    ensures Follows(c, q, r, x, y)
  {
    var n := ns - RESERVED - 2 * x;
    PerAtLeast(n, c, 128 * q - 127);
    PerAtLeast(n, c, 128 * q + 1);
    PerAtLeast(n, c, 128 * q + 129);
    hide Per;
    Products(c, q);
  }

  lemma Products(c: nat, q: nat)
    ensures (128 * q - 127) * c == 128 * (c * q) - 127 * c
    ensures (128 * q + 1) * c == 128 * (c * q) + c
    ensures (128 * q + 129) * c == 128 * (c * q) + 129 * c
    ensures (128 * q - 1) * c == 128 * (c * q) - c
    ensures (128 * q + 127) * c == 128 * (c * q) + 127 * c
  {
  }

  /** Five estimates, the first of them not too far off, end at the number of portions, or one more. */
  lemma LastEstimate(c: nat, q: nat, r: nat, d: nat, e0: nat, e1: nat, e2: nat, e3: nat, e4: nat)
    requires c > 0 && r < 128 * c + 2 && e0 <= q + d && 2 * d <= 127 * c
    requires Follows(c, q, r, 0, e0) && Follows(c, q, r, e0, e1) && Follows(c, q, r, e1, e2)
    requires Follows(c, q, r, e2, e3) && Follows(c, q, r, e3, e4)
    ensures e4 == if r < c then q else q + 1
  {
    assert q <= e0 && (r >= c ==> q + 1 <= e0);
    assert e1 == q || (e1 == q + 1 && r >= c + 2);
  }

  // ---- the first estimate is near enough ----

  /** An upper bound on the first estimate. */
  lemma FirstBelow(ns: nat, c: nat, q: nat, r: nat, d: nat)
    requires c > 0 && ns - RESERVED == 128 * (c * q) + 2 * q + r && 2 * q + r < 128 * (d * c) + c
    ensures (Per(ns - RESERVED, c) + 127) / 128 <= q + d
  {
    PerAtLeast(ns - RESERVED, c, 128 * (q + d) + 1);
    hide Per;
    assert (128 * (q + d) + 1) * c == 128 * (c * q) + 128 * (d * c) + c;
  }

  /** A volume for which clusters of `2 * c` sectors are too large. */
  lemma FewPortions(ns: nat, c: nat)
    requires 0 < c <= 32 && Sized(ns, 2 * c) && Clusters(ns, 2 * c) < MIN_CLUSTERS && Sized(ns, c)
    ensures Portions(ns, c) <= 1040
  {
    var n, c2 := ns - RESERVED, 2 * c;
    hide Estimate, Clusters, FatSectors, Portions, Leftover;
    Exactly(ns, c2, 0);
    Exactly(ns, c2, 3);
    ClustersExactly(ns, c2);
    var fs := FatSectors(ns, c2);
    PerAtLeast(n - 2 * fs, c2, MIN_CLUSTERS);
    PerMono(n - 2 * Estimate(ns, c2, 3), n, c2);
    PerAtLeast(n, c2, Per(n, c2));
    Commute(c2, Per(n, c2));
    MulMono(2, c2, Per(n, c2));
    assert n < 133000 * c;
    var q, r, p := Dealt(ns, c);
    hide Per;
    if q > 1040 { MulMono(1041, q, c); Commute(q, c); }
  }

  /** The sizes the formatter settles for: the largest that give enough clusters. */
  ghost predicate SettledSize(ns: nat, c: nat) {
    && c in CLUSTER_SIZES && Sized(ns, c) && Clusters(ns, c) >= MIN_CLUSTERS
    && (forall d :: d in CLUSTER_SIZES && d > c ==> Clusters(ns, d) < MIN_CLUSTERS)
  }

  /** The final FAT size: the number of portions, and one more if the leftover sectors make a cluster. */
  lemma FatSectorsAre(ns: nat, c: nat)
    requires c > 0 && SettledSize(ns, c)
    ensures ns >= 32 && FatSectors(ns, c) == (ns - 32) / (128 * c + 2) + if (ns - 32) % (128 * c + 2) < c then 0 else 1
    ensures 128 * FatSectors(ns, c) >= Clusters(ns, c) + 2 <==>
              c <= (ns - 32) % (128 * c + 2) < 127 * c + 2
  {
    FatSectorsIn(ns, c);
    CoversIff(ns, c);
    SizedRange(ns, c);
    hide FatSectors, Clusters, SettledSize;
  }

  lemma FatSectorsIn(ns: nat, c: nat)
    requires c > 0 && SettledSize(ns, c)
    ensures FatSectors(ns, c) == Portions(ns, c) + if Leftover(ns, c) < c then 0 else 1
  {
    hide Estimate, Clusters, Portions, Leftover, Per, Follows;
    var q, r, p := Dealt(ns, c);
    Exactly(ns, c, 0);
    Exactly(ns, c, 1);
    Exactly(ns, c, 2);
    Exactly(ns, c, 3);
    var d := FirstNear(ns, c, q, r);
    GuessFollows(ns, c, q, r, 0, Estimate(ns, c, 0));
    GuessFollows(ns, c, q, r, Estimate(ns, c, 0), Estimate(ns, c, 1));
    GuessFollows(ns, c, q, r, Estimate(ns, c, 1), Estimate(ns, c, 2));
    GuessFollows(ns, c, q, r, Estimate(ns, c, 2), Estimate(ns, c, 3));
    GuessFollows(ns, c, q, r, Estimate(ns, c, 3), Estimate(ns, c, 4));
    LastEstimate(c, q, r, d, Estimate(ns, c, 0), Estimate(ns, c, 1), Estimate(ns, c, 2), Estimate(ns, c, 3), Estimate(ns, c, 4));
  }

  /** How near. */
  lemma FirstNear(ns: nat, c: nat, q: nat, r: nat) returns (d: nat)
    requires SettledSize(ns, c) && c > 0 && q == Portions(ns, c)
    requires ns - RESERVED == 128 * (c * q) + 2 * q + r && r < 128 * c + 2
    ensures 2 * d <= 127 * c && (Per(ns - RESERVED, c) + 127) / 128 <= q + d
  {
    hide Clusters, Portions, Leftover, Per;
    if c == 64 {
      d := 130;
    } else {
      d := 63;
      Larger(ns, c);
      FewPortions(ns, c);
    }
    FirstBelow(ns, c, q, r, d);
  }

  lemma Larger(ns: nat, c: nat)
    requires SettledSize(ns, c) && c < 64
    ensures 0 < c <= 32 && Sized(ns, 2 * c) && Clusters(ns, 2 * c) < MIN_CLUSTERS
  {
    hide Clusters;
    assert 2 * c in CLUSTER_SIZES;
  }

  /** The FAT of a formatted volume has an entry for every cluster, the reserved ones counted, exactly under the
      condition. */
  lemma CoversIff(ns: nat, c: nat)
    requires c > 0 && SettledSize(ns, c)
    ensures Clusters(ns, c) + 2 <= 128 * FatSectors(ns, c) <==> Covers(ns, c)
  {
    FatSectorsIn(ns, c);
    ClustersExactly(ns, c);
    var q, r, p := Dealt(ns, c);
    hide FatSectors, Clusters, Portions, Leftover, SettledSize;
    var fs := FatSectors(ns, c);
    PerAtLeast(ns - RESERVED - 2 * fs, c, 128 * fs - 1);
    hide Per;
    Products(c, q);
    assert 128 * (q + 1) - 1 == 128 * q + 127;
  }

  /** If it does not cover them all, it lacks the entries of both last clusters, or of the very last one. */
  lemma LastEntries(ns: nat, c: nat)
    requires c > 0 && SettledSize(ns, c) && !Covers(ns, c)
    ensures Clusters(ns, c) == 128 * FatSectors(ns, c) - if Leftover(ns, c) < c then 0 else 1
  {
    hide FatSectors, Clusters, Portions, Leftover, Per;
    FatSectorsIn(ns, c);
    ClustersExactly(ns, c);
    var q, r, p := Dealt(ns, c);
    if r < c {
      PerBetween(128 * p + r, c, q, 0, r);
    } else {
      PerBetween(128 * p + (r - 2), c, q, 127, r - 2 - 127 * c);
    }
  }

  /** The clusters in a number of portions and a number of clusters and a rest. */
  lemma PerBetween(x: nat, c: nat, q: nat, k: nat, rest: nat)
    requires rest < c && x == 128 * (c * q) + k * c + rest
    ensures Per(x, c) == 128 * q + k
  {
    assert (128 * q + k) * c == 128 * (c * q) + k * c;
    DivModUnique(x, c, 128 * q + k, rest);
  }

  // ---- the size as a function of the sector count ----

  /** The first size from `c` down that gives enough clusters; 0 if none does. */
  function FirstFitting(ns: nat, c: nat): nat {
    if c == 0 then 0 else if Clusters(ns, c) >= MIN_CLUSTERS then c else FirstFitting(ns, c / 2)
  }

  function ChosenSize(ns: nat): nat { FirstFitting(ns, 64) }

  lemma SettledIsChosen(ns: nat, c: nat)
    requires SettledSize(ns, c)
    ensures c == ChosenSize(ns)
  {
    hide Clusters;
    Descend(ns, c, 64);
  }

  lemma {:induction false} Descend(ns: nat, c: nat, from: nat)
    requires SettledSize(ns, c) && c <= from && from in CLUSTER_SIZES
    ensures FirstFitting(ns, from) == c
    decreases from
  {
    hide Clusters;
    if c < from {
      assert from / 2 in CLUSTER_SIZES && c <= from / 2;
      Descend(ns, c, from / 2);
    }
  }
}
