/** mkfs_makevfat: the FAT size by alternating estimates, the boot sector, and the empty FAT. */
module Mkfs {
  import opened Arith
  import opened Bytes
  import opened Geometries
  import opened FatEntries
  import opened Chains
  import opened Files

  const MIN_SECTORS := 66581
  const MIN_CLUSTERS := 65525 + 16
  const RESERVED := 32

  /** How many clusters of `c` sectors fit. */
  function Per(sectors: nat, c: nat): nat
    requires c > 0
  {
    sectors / c
  }

  /** The FAT size, in sectors, for `ds` data sectors in clusters of `c`; 32-bit unsigned. */
  function FatGuess(ds: nat, c: nat): nat
    requires c > 0
  {
    (Per(ds, c) + 127) % UINT32 / 128
  }

  /** The data sectors two FATs of `fs` sectors leave; 32-bit unsigned. */
  function DataLeft(ns: nat, fs: nat): nat {
    (ns - RESERVED - 2 * fs) % UINT32
  }

  /** The successive estimates of the FAT size. */
  function Estimate(ns: nat, c: nat, k: nat): nat
    requires c > 0
  {
    if k == 0 then FatGuess((ns - RESERVED) % UINT32, c) else FatGuess(DataLeft(ns, Estimate(ns, c, k - 1)), c)
  }

  /** The sizes the formatter tries: nothing wraps in the first estimate. */
  predicate Sized(ns: nat, c: nat) {
    MIN_SECTORS <= ns < UINT32 && 0 < c <= 64 && (c == 1 ==> ns + 127 <= UINT32)
  }

  lemma PerMono(x: nat, y: nat, c: nat)
    requires c > 0 && x <= y
    ensures Per(x, c) <= Per(y, c)
  {
    DivMod(y, c);
    assert c * (y / c + 1) == y / c * c + c;
    DivBelow(x, c, y / c + 1);
  }

  lemma PerBelow(ns: nat, c: nat, x: nat)
    requires Sized(ns, c) && x <= ns - RESERVED
    ensures Per(x, c) <= x && Per(x, c) + 127 < UINT32
  {
    DivMod(x, c);
    MulMono(1, c, x / c);
    Commute(c, x / c);
    if c >= 2 { MulMono(2, c, x / c); }
  }

  /** No guess wraps, and no guess is so large that the FATs would not fit. */
  lemma GuessFacts(ns: nat, c: nat, x: nat)
    requires Sized(ns, c) && x <= ns - RESERVED
    ensures FatGuess(x, c) == (Per(x, c) + 127) / 128
    ensures 2 * FatGuess(x, c) <= ns - RESERVED && 128 * FatGuess(x, c) >= Per(x, c)
  {
    PerBelow(ns, c, x);
    hide Per;
  }

  /** More data needs no smaller FAT. */
  lemma GuessMono(ns: nat, c: nat, x: nat, y: nat)
    requires Sized(ns, c) && x <= y <= ns - RESERVED
    ensures FatGuess(x, c) <= FatGuess(y, c)
  {
    GuessFacts(ns, c, x);
    GuessFacts(ns, c, y);
    PerMono(x, y, c);
    hide Per, FatGuess;
  }

  /** The two FATs leave room for data, whichever estimate is used. */
  lemma {:induction false} EstimateFits(ns: nat, c: nat, k: nat)
    requires c > 0 && Sized(ns, c)
    ensures 2 * Estimate(ns, c, k) <= ns - RESERVED
    ensures DataLeft(ns, Estimate(ns, c, k)) == ns - RESERVED - 2 * Estimate(ns, c, k)
  {
    hide FatGuess, DataLeft, Estimate, Sized, Per;
    SizedRange(ns, c);
    if k == 0 {
      ZerothEstimate(ns, c);
      GuessFacts(ns, c, ns - RESERVED);
    } else {
      EstimateFits(ns, c, k - 1);
      NextEstimate(ns, c, k - 1);
      GuessFacts(ns, c, DataLeft(ns, Estimate(ns, c, k - 1)));
    }
    LeftExactly(ns, Estimate(ns, c, k));
  }

  lemma ZerothEstimate(ns: nat, c: nat)
    requires Sized(ns, c)
    ensures Estimate(ns, c, 0) == FatGuess(ns - RESERVED, c)
  {
    hide FatGuess;
  }

  lemma LeftExactly(ns: nat, fs: nat)
    requires 2 * fs <= ns - RESERVED < UINT32
    ensures DataLeft(ns, fs) == ns - RESERVED - 2 * fs
  {
  }

  /** A larger FAT leaves less data, which needs no larger FAT. */
  lemma Antitone(ns: nat, c: nat, x: nat, y: nat)
    requires Sized(ns, c) && x <= y && 2 * y <= ns - RESERVED
    ensures FatGuess(DataLeft(ns, y), c) <= FatGuess(DataLeft(ns, x), c)
  {
    hide FatGuess;
    GuessMono(ns, c, DataLeft(ns, y), DataLeft(ns, x));
  }

  lemma NextEstimate(ns: nat, c: nat, k: nat)
    requires c > 0
    ensures Estimate(ns, c, k + 1) == FatGuess(DataLeft(ns, Estimate(ns, c, k)), c)
  {
    hide FatGuess, DataLeft;
  }

  /** The first estimate is the largest. */
  lemma FirstEstimate(ns: nat, c: nat, fs: nat)
    requires Sized(ns, c) && 2 * fs <= ns - RESERVED
    ensures FatGuess(DataLeft(ns, fs), c) <= Estimate(ns, c, 0)
  {
    hide FatGuess;
    GuessMono(ns, c, DataLeft(ns, fs), ns - RESERVED);
  }

  /** The estimates alternate: after an even one comes a smaller one, after an odd one a larger one. */
  lemma {:induction false} Alternates(ns: nat, c: nat, k: nat)
    requires c > 0 && Sized(ns, c)
    ensures k % 2 == 0 ==> Estimate(ns, c, k + 1) <= Estimate(ns, c, k)
    ensures k % 2 == 1 ==> Estimate(ns, c, k) <= Estimate(ns, c, k + 1)
  {
    hide FatGuess, DataLeft, Estimate, Sized;
    EstimateFits(ns, c, k);
    NextEstimate(ns, c, k);
    if k == 0 {
      FirstEstimate(ns, c, Estimate(ns, c, 0));
    } else {
      Alternates(ns, c, k - 1);
      EstimateFits(ns, c, k - 1);
      NextEstimate(ns, c, k - 1);
      if k % 2 == 0 {
        Antitone(ns, c, Estimate(ns, c, k - 1), Estimate(ns, c, k));
      } else {
        Antitone(ns, c, Estimate(ns, c, k), Estimate(ns, c, k - 1));
      }
    }
  }

  /** A FAT size that is exactly what the data beside it needs lies between the even and the odd estimates. */
  lemma {:induction false} AroundFixedPoint(ns: nat, c: nat, k: nat, x: nat)
    requires c > 0 && Sized(ns, c) && 2 * x <= ns - RESERVED && x == FatGuess(DataLeft(ns, x), c)
    ensures if k % 2 == 0 then x <= Estimate(ns, c, k) else Estimate(ns, c, k) <= x
  {
    hide FatGuess, DataLeft, Estimate, Sized;
    if k == 0 {
      FirstEstimate(ns, c, x);
    } else {
      AroundFixedPoint(ns, c, k - 1, x);
      EstimateFits(ns, c, k - 1);
      NextEstimate(ns, c, k - 1);
      if k % 2 == 0 {
        Antitone(ns, c, Estimate(ns, c, k - 1), x);
      } else {
        Antitone(ns, c, x, Estimate(ns, c, k - 1));
      }
    }
  }

  /** The FAT size and cluster count for one cluster size. */
  function FatSectors(ns: nat, c: nat): nat
    requires c > 0
  {
    Estimate(ns, c, 4)
  }

  function Clusters(ns: nat, c: nat): nat
    requires c > 0
  {
    Per(DataLeft(ns, FatSectors(ns, c)), c)
  }

  /** The FAT has an entry for every cluster counted from zero. */
  lemma FatLargeEnough(ns: nat, c: nat)
    requires Sized(ns, c)
    ensures 128 * FatSectors(ns, c) >= Clusters(ns, c)
    ensures RESERVED + 2 * FatSectors(ns, c) + Clusters(ns, c) * c <= ns
  {
    Alternates(ns, c, 3);
    EstimateFits(ns, c, 3);
    EstimateFits(ns, c, 4);
    NextEstimate(ns, c, 3);
    var ds, ds' := DataLeft(ns, Estimate(ns, c, 3)), DataLeft(ns, Estimate(ns, c, 4));
    GuessFacts(ns, c, ds);
    PerMono(ds', ds, c);
    DivTimes(ds', c);
    hide FatGuess, Estimate, DataLeft;
  }

  // ---- the choice of a cluster size ----

  const CLUSTER_SIZES: set<nat> := {64, 32, 16, 8, 4, 2, 1}

  /** The least number of sectors for which some cluster size gives a FAT32 volume. */
  const ENOUGH_SECTORS := 66599

  /** The estimates without the wrapping. */
  lemma Exactly(ns: nat, c: nat, k: nat)
    requires c > 0 && Sized(ns, c)
    ensures 2 * Estimate(ns, c, k) <= ns - RESERVED
    ensures Estimate(ns, c, 0) == (Per(ns - RESERVED, c) + 127) / 128
    ensures Estimate(ns, c, k + 1) == (Per(ns - RESERVED - 2 * Estimate(ns, c, k), c) + 127) / 128
  {
    hide FatGuess, Per;
    EstimateFits(ns, c, k);
    NextEstimate(ns, c, k);
    GuessFacts(ns, c, ns - RESERVED);
    GuessFacts(ns, c, ns - RESERVED - 2 * Estimate(ns, c, k));
  }

  lemma ClustersExactly(ns: nat, c: nat)
    requires c > 0 && Sized(ns, c)
    ensures 2 * FatSectors(ns, c) <= ns - RESERVED && Clusters(ns, c) == Per(ns - RESERVED - 2 * FatSectors(ns, c), c)
    ensures FatSectors(ns, c) == Estimate(ns, c, 4)
  {
    EstimateFits(ns, c, 4);
    hide Estimate, Per;
  }

  lemma OneExactly(ns: nat, k: nat)
    requires Sized(ns, 1)
    ensures 2 * Estimate(ns, 1, k) <= ns - RESERVED
    ensures Estimate(ns, 1, 0) == (ns - RESERVED + 127) / 128
    ensures Estimate(ns, 1, k + 1) == (ns - RESERVED - 2 * Estimate(ns, 1, k) + 127) / 128
  {
    hide Estimate;
    Exactly(ns, 1, k);
  }

  /** Clusters of one sector are enough from ENOUGH_SECTORS on, and not before. */
  lemma OneSectorClusters(ns: nat)
    requires Sized(ns, 1)
    ensures Clusters(ns, 1) >= MIN_CLUSTERS <==> ns >= ENOUGH_SECTORS
  {
    hide Estimate, Clusters, FatSectors, Sized;
    OneExactly(ns, 0);
    OneExactly(ns, 1);
    OneExactly(ns, 2);
    OneExactly(ns, 3);
    ClustersExactly(ns, 1);
    SizedRange(ns, 1);
    Threshold(ns - RESERVED, Estimate(ns, 1, 0), Estimate(ns, 1, 1), Estimate(ns, 1, 2), Estimate(ns, 1, 3), Estimate(ns, 1, 4));
  }

  lemma SizedRange(ns: nat, c: nat)
    requires Sized(ns, c)
    ensures MIN_SECTORS <= ns < UINT32 && 0 < c <= 64
  {
  }

  lemma Threshold(n: nat, e0: nat, e1: nat, e2: nat, e3: nat, e4: nat)
    requires n >= MIN_SECTORS - RESERVED && e0 == (n + 127) / 128 && e1 == (n - 2 * e0 + 127) / 128
    requires e2 == (n - 2 * e1 + 127) / 128 && e3 == (n - 2 * e2 + 127) / 128 && e4 == (n - 2 * e3 + 127) / 128
    ensures n - 2 * e4 >= MIN_CLUSTERS <==> n >= ENOUGH_SECTORS - RESERVED
  {
  }

  /** Larger clusters need more sectors than that. */
  lemma LargerClusters(ns: nat, c: nat)
    requires c > 1 && Sized(ns, c) && Clusters(ns, c) >= MIN_CLUSTERS
    ensures ns >= ENOUGH_SECTORS
  {
    FatLargeEnough(ns, c);
    hide Clusters, FatSectors;
    MulMono(2, c, Clusters(ns, c));
    Commute(c, Clusters(ns, c));
  }

  /** A volume that is too small for the largest clusters is small. */
  lemma SmallVolume(ns: nat)
    requires Sized(ns, 64) && Clusters(ns, 64) < MIN_CLUSTERS
    ensures ns < 0x50_0000
  {
    hide Estimate, Clusters, FatSectors;
    Exactly(ns, 64, 0);
    Exactly(ns, 64, 3);
    ClustersExactly(ns, 64);
    PerMono(ns - RESERVED - 2 * Estimate(ns, 64, 3), ns - RESERVED, 64);
  }

  /** The loop over the cluster sizes. From ENOUGH_SECTORS on it stops at the largest size that gives enough clusters;
      below, it runs through with cluster size 0. */
  method ChooseSize(ns: nat) returns (c: nat, fs: nat, dc: nat)
    requires MIN_SECTORS <= ns < UINT32
    ensures ns >= ENOUGH_SECTORS ==>
              && c in CLUSTER_SIZES && Sized(ns, c) && fs == FatSectors(ns, c) && dc == Clusters(ns, c) >= MIN_CLUSTERS
              && (forall d :: d in CLUSTER_SIZES && d > c ==> Clusters(ns, d) < MIN_CLUSTERS)
    ensures ns < ENOUGH_SECTORS ==> c == 0 && fs == FatSectors(ns, 1) && dc == Clusters(ns, 1) < MIN_CLUSTERS
  {
    c, fs, dc := 64, 0, 0;
    hide FatGuess, DataLeft, Estimate, Per;
    while c >= 1
      invariant c == 0 || c in CLUSTER_SIZES
      invariant forall d :: d in CLUSTER_SIZES && d > c ==> Clusters(ns, d) < MIN_CLUSTERS
      invariant c == 0 ==> fs == FatSectors(ns, 1) && dc == Clusters(ns, 1)
      invariant c < 64 ==> ns < 0x50_0000
      invariant c > 0 ==> Sized(ns, c)
      decreases c
    {
      fs, dc := SizesFor(ns, c);
      if dc >= MIN_CLUSTERS {
        if c == 1 { OneSectorClusters(ns); } else { LargerClusters(ns, c); }
        return;
      }
      if c == 64 { SmallVolume(ns); }
      c := c / 2;
    }
    OneSectorClusters(ns);
  }

  /** The estimates for one cluster size. */
  method SizesFor(ns: nat, c: nat) returns (fs: nat, dc: nat)
    requires c > 0
    ensures fs == FatSectors(ns, c) && dc == Clusters(ns, c)
  {
    hide FatGuess, DataLeft, Per;
    var ds := (ns - RESERVED) % UINT32;
    fs := FatGuess(ds, c);
    for cc := 0 to 2
      invariant fs == Estimate(ns, c, 2 * cc)
    {
      ds := DataLeft(ns, fs);
      fs := FatGuess(ds, c);
      ds := DataLeft(ns, fs);
      fs := FatGuess(ds, c);
    }
    ds := DataLeft(ns, fs);
    dc := Per(ds, c);
  }

  // ---- what is written ----

  function Ascii(s: string): (bs: seq<Byte>)
    ensures |bs| == |s|
  {
    seq(|s|, i requires 0 <= i < |s| => s[i] as int % 256)
  }

  /** The first part of the boot sector: up to the FAT size of smaller FAT types. */
  function BootHead(c: nat): Sector {
    var b1 := Splice(Zero(), 0, [0xE9, 0, 0]);
    var b2 := Splice(b1, 3, Ascii("DSCOSMSH"));
    var b3 := Splice(b2, 11, Le16(512));
    var b4 := Splice(b3, 13, [c % 256]);
    var b5 := Splice(b4, 14, Le16(RESERVED));
    var b6 := Splice(b5, 16, [2]);
    var b7 := Splice(b6, 17, Le16(0));
    var b8 := Splice(b7, 19, Le16(0));
    var b9 := Splice(b8, 21, [0xF8]);
    Splice(b9, 22, Le16(0))
  }

  /** The boot sector, field by field. */
  function BootSector(c: nat, fs: nat, ns: nat): Sector {
    var b1 := Splice(BootHead(c), 32, Le32(ns));
    var b2 := Splice(b1, 36, Le32(fs));
    var b3 := Splice(b2, 44, Le32(2));
    var b4 := Splice(b3, 67, Le32(0x1337_1337));
    var b5 := Splice(b4, 71, Ascii("DISCOSMASH!"));
    var b6 := Splice(b5, 82, Ascii("FAT32   "));
    Splice(b6, 510, [0x55, 0xAA])
  }

  /** The first sector of each FAT: the two reserved entries and the root directory's only cluster. */
  function FirstFatSector(): Sector {
    Splice(Splice(Splice(Zero(), 0, Le32(0x0FFF_FFF8)), 4, Le32(0x0FFF_FFFF)), 8, Le32(0x0FFF_FFF8))
  }

  /** Sector `s` of the partition after formatting: boot sector, two equal FATs, everything else as it was. */
  function FormattedSector(disc: seq<Sector>, c: nat, fs: nat, s: nat): Sector
    requires s < |disc|
  {
    if s == 0 then BootSector(c, fs, |disc|)
    else if s == RESERVED || s == RESERVED + fs then FirstFatSector()
    else if RESERVED <= s < RESERVED + 2 * fs then Zero()
    else disc[s]
  }

  function Formatted(disc: seq<Sector>, c: nat, fs: nat): (d: seq<Sector>)
    ensures |d| == |disc|
  {
    seq(|disc|, s requires 0 <= s < |disc| => FormattedSector(disc, c, fs, s))
  }

  // ---- the same byte by byte ----

  /** The boot sector for `ns` sectors, clusters of `c` and FATs of `fs` sectors: a jump, DSCOSMSH, 512 bytes per sector, `c`, 32
      reserved sectors, 2 FATs, media byte F8; `ns`, `fs`, root directory at cluster 2; 13371337, DISCOSMASH!, FAT32, and the
      mark 55 AA; all other bytes zero. */
  ghost predicate BootBytes(s: Sector, c: nat, fs: nat, ns: nat) {
    && s[..16] == [0xE9, 0, 0, 0x44, 0x53, 0x43, 0x4F, 0x53, 0x4D, 0x53, 0x48, 0x00, 0x02, c % 0x100, 0x20, 0x00]
    && s[16..32] == [0x02, 0, 0, 0, 0, 0xF8, 0, 0, 0, 0, 0, 0, 0, 0, 0, 0]
    && s[32..36] == [ns % 0x100, ns / 0x100 % 0x100, ns / 0x1_0000 % 0x100, ns / 0x100_0000 % 0x100]
    && s[36..40] == [fs % 0x100, fs / 0x100 % 0x100, fs / 0x1_0000 % 0x100, fs / 0x100_0000 % 0x100]
    && s[40..48] == [0, 0, 0, 0, 0x02, 0, 0, 0] && (forall k :: 48 <= k < 67 ==> s[k] == 0)
    && s[67..71] == [0x37, 0x13, 0x37, 0x13]
    && s[71..82] == [0x44, 0x49, 0x53, 0x43, 0x4F, 0x53, 0x4D, 0x41, 0x53, 0x48, 0x21]
    && s[82..90] == [0x46, 0x41, 0x54, 0x33, 0x32, 0x20, 0x20, 0x20] && (forall k :: 90 <= k < 510 ==> s[k] == 0)
    && s[510] == 0x55 && s[511] == 0xAA
  }

  /** The first four fields. */
  lemma HeadStart(c: nat)
    ensures var s := Splice(Splice(Splice(Splice(Zero(), 0, [0xE9, 0, 0]), 3, Ascii("DSCOSMSH")), 11, Le16(512)), 13, [c % 256]);
            && s[..14] == [0xE9, 0, 0, 0x44, 0x53, 0x43, 0x4F, 0x53, 0x4D, 0x53, 0x48, 0x00, 0x02, c % 0x100]
            && forall k :: 14 <= k < 512 ==> s[k] == 0
  {
  }

  /** The rest of the first part. */
  lemma HeadRest(h: Sector)
    ensures var b7 := Splice(Splice(Splice(h, 14, Le16(RESERVED)), 16, [2]), 17, Le16(0));
            var s := Splice(Splice(Splice(b7, 19, Le16(0)), 21, [0xF8]), 22, Le16(0));
            && s[14] == 0x20 && s[15] == 0x00 && s[16] == 0x02 && s[17] == s[18] == s[19] == s[20] == 0 && s[21] == 0xF8
            && s[22] == s[23] == 0
            && forall k :: 0 <= k < 14 || 24 <= k < 512 ==> s[k] == h[k]
  {
  }

  lemma HeadBytes(c: nat)
    ensures var s := BootHead(c);
            && s[..16] == [0xE9, 0, 0, 0x44, 0x53, 0x43, 0x4F, 0x53, 0x4D, 0x53, 0x48, 0x00, 0x02, c % 0x100, 0x20, 0x00]
            && s[16..32] == [0x02, 0, 0, 0, 0, 0xF8, 0, 0, 0, 0, 0, 0, 0, 0, 0, 0]
            && forall k :: 32 <= k < 512 ==> s[k] == 0
  {
    var h := Splice(Splice(Splice(Splice(Zero(), 0, [0xE9, 0, 0]), 3, Ascii("DSCOSMSH")), 11, Le16(512)), 13, [c % 256]);
    HeadStart(c);
    HeadRest(h);
    hide Splice, Ascii, Le16, Zero;
    var s := BootHead(c);
    assert s[..14] == h[..14] && s[..16] == s[..14] + [s[14], s[15]];
    assert forall k :: 24 <= k < 512 ==> s[k] == 0;
  }

  /** The three 32-bit fields. */
  lemma SizeFields(h: Sector, fs: nat, ns: nat)
    ensures var s := Splice(Splice(Splice(h, 32, Le32(ns)), 36, Le32(fs)), 44, Le32(2));
            && s[..16] == h[..16] && s[16..32] == h[16..32]
            && s[32..36] == [ns % 0x100, ns / 0x100 % 0x100, ns / 0x1_0000 % 0x100, ns / 0x100_0000 % 0x100]
            && s[36..40] == [fs % 0x100, fs / 0x100 % 0x100, fs / 0x1_0000 % 0x100, fs / 0x100_0000 % 0x100]
            && s[44..48] == [0x02, 0, 0, 0]
            && forall k :: 40 <= k < 44 || 48 <= k < 512 ==> s[k] == h[k]
  {
  }

  /** Everything behind them. */
  lemma TailBytes(h: Sector)
    ensures var s := Splice(Splice(Splice(Splice(h, 67, Le32(0x1337_1337)), 71, Ascii("DISCOSMASH!")), 82, Ascii("FAT32   ")),
                            510, [0x55, 0xAA]);
            && s[67..71] == [0x37, 0x13, 0x37, 0x13]
            && s[71..82] == [0x44, 0x49, 0x53, 0x43, 0x4F, 0x53, 0x4D, 0x41, 0x53, 0x48, 0x21]
            && s[82..90] == [0x46, 0x41, 0x54, 0x33, 0x32, 0x20, 0x20, 0x20] && s[510] == 0x55 && s[511] == 0xAA
            && forall k :: 0 <= k < 67 || 90 <= k < 510 ==> s[k] == h[k]
  {
  }

  lemma BootIs(c: nat, fs: nat, ns: nat)
    ensures BootBytes(BootSector(c, fs, ns), c, fs, ns)
  {
    HeadBytes(c);
    var h := BootHead(c);
    var m := Splice(Splice(Splice(h, 32, Le32(ns)), 36, Le32(fs)), 44, Le32(2));
    SizeFields(h, fs, ns);
    TailBytes(m);
    hide BootHead, Splice, Le32, Ascii;
    var s := BootSector(c, fs, ns);
    assert s[..48] == m[..48];
    assert s[..16] == m[..48][..16] && s[16..32] == m[..48][16..32] && s[32..36] == m[..48][32..36];
    assert s[36..40] == m[..48][36..40] && s[40..48] == m[40..48];
  }

  /** A FAT sector of a new volume: zeros, or in the first sector of a FAT entries 0 to 2 and zeros. */
  ghost predicate NewFatSector(s: Sector, first: bool) {
    && (first ==> s[..12] == [0xF8, 0xFF, 0xFF, 0x0F, 0xFF, 0xFF, 0xFF, 0x0F, 0xF8, 0xFF, 0xFF, 0x0F])
    && forall k :: (if first then 12 else 0) <= k < 512 ==> s[k] == 0
  }

  lemma FirstFatIs()
    ensures NewFatSector(FirstFatSector(), true) && NewFatSector(Zero(), false)
  {
  }

  /** The disc after formatting: a boot sector, two FATs of `fs` sectors from sector 32 on, everything else as it was. */
  ghost predicate NewVolume(disc: seq<Sector>, disc': seq<Sector>, c: nat, fs: nat) {
    && |disc'| == |disc| && 0 < fs && 32 + 2 * fs <= |disc|
    && BootBytes(disc'[0], c, fs, |disc|)
    && (forall s :: 32 <= s < 32 + 2 * fs ==> NewFatSector(disc'[s], s == 32 || s == 32 + fs))
    && forall s :: 0 < s < |disc| && !(32 <= s < 32 + 2 * fs) ==> disc'[s] == disc[s]
  }

  lemma FormattedIs(disc: seq<Sector>, c: nat, fs: nat)
    requires 0 < fs && 32 + 2 * fs <= |disc|
    ensures NewVolume(disc, Formatted(disc, c, fs), c, fs)
  {
    BootIs(c, fs, |disc|);
    FirstFatIs();
    hide BootSector, FirstFatSector, Zero, BootBytes, NewFatSector;
  }

  method MemClr(buf: array<Byte>)
    requires buf.Length == SECTOR_SIZE
    modifies buf
    ensures buf[..] == Zero()
  {
    for i := 0 to buf.Length
      invariant forall k :: 0 <= k < i ==> buf[k] == 0
    {
      buf[i] := 0;
    }
  }

  /** The boot sector filled in place. */
  method FillBoot(buf: array<Byte>, c: nat, fs: nat, ns: nat)
    requires buf.Length == SECTOR_SIZE && buf[..] == Zero()
    modifies buf
    ensures buf[..] == BootSector(c, fs, ns)
  {
    hide Splice;
    MemCpy([0xE9, 0, 0], buf, 0);
    MemCpy(Ascii("DSCOSMSH"), buf, 3);
    MemCpy(Le16(512), buf, 11);
    MemCpy([c % 256], buf, 13);
    MemCpy(Le16(RESERVED), buf, 14);
    MemCpy([2], buf, 16);
    MemCpy(Le16(0), buf, 17);
    MemCpy(Le16(0), buf, 19);
    MemCpy([0xF8], buf, 21);
    MemCpy(Le16(0), buf, 22);
    MemCpy(Le32(ns), buf, 32);
    MemCpy(Le32(fs), buf, 36);
    MemCpy(Le32(2), buf, 44);
    MemCpy(Le32(0x1337_1337), buf, 67);
    MemCpy(Ascii("DISCOSMASH!"), buf, 71);
    MemCpy(Ascii("FAT32   "), buf, 82);
    MemCpy([0x55, 0xAA], buf, 510);
  }

  const MKFS_ERR_TOOLITTLESECTORS := 0x01

  /** The FATs are not empty and leave room for the clusters. */
  lemma AllFits(ns: nat, c: nat)
    requires c > 0 && Sized(ns, c)
    ensures 0 < FatSectors(ns, c) && 32 + 2 * FatSectors(ns, c) <= ns && 32 + FatSectors(ns, c) < ns
    ensures Clusters(ns, c) >= 65541 ==> 32 + 2 * FatSectors(ns, c) + 65541 * c <= ns
  {
    SizedRange(ns, c);
    FatLargeEnough(ns, c);
    ClustersExactly(ns, c);
    hide FatSectors, Clusters;
    if Clusters(ns, c) >= 65541 { MulMono(65541, Clusters(ns, c), c); }
    assert FatSectors(ns, c) == 0 ==> ns - RESERVED < c by { DivMod(ns - RESERVED, c); }
  }

  /** mkfs_makevfat on a partition given by its sectors: refused and left alone below 66581 sectors; otherwise a boot sector and
      two FATs are written, from 66599 sectors on with the largest cluster size that makes 65541 clusters. */
  method MakeVfat(dev: array<Sector>) returns (r: int, ghost c: nat, ghost fs: nat)
    requires dev.Length < UINT32
    modifies dev
    ensures dev.Length < MIN_SECTORS ==> r == MKFS_ERR_TOOLITTLESECTORS && dev[..] == old(dev[..])
    ensures dev.Length >= MIN_SECTORS ==> r == 0 && dev[..] == Formatted(old(dev[..]), c, fs)
    ensures dev.Length >= ENOUGH_SECTORS ==>
              && c in CLUSTER_SIZES && Sized(dev.Length, c) && fs == FatSectors(dev.Length, c)
              && Clusters(dev.Length, c) >= MIN_CLUSTERS
              && (forall d :: d in CLUSTER_SIZES && d > c ==> Clusters(dev.Length, d) < MIN_CLUSTERS)
    ensures MIN_SECTORS <= dev.Length < ENOUGH_SECTORS ==> c == 0 && fs == FatSectors(dev.Length, 1)
    ensures dev.Length < 66581 ==> r == 1 && dev[..] == old(dev[..])
    ensures dev.Length >= 66581 ==> r == 0 && NewVolume(old(dev[..]), dev[..], c, fs)
    ensures 66581 <= dev.Length < 66599 ==> c == 0
    ensures dev.Length >= 66599 ==>
              && (c == 1 || c == 2 || c == 4 || c == 8 || c == 16 || c == 32 || c == 64)
              && 32 + 2 * fs + 65541 * c <= dev.Length
  {
    var ns := dev.Length;
    c, fs := 0, 0;
    if ns < MIN_SECTORS {
      return MKFS_ERR_TOOLITTLESECTORS, c, fs;
    }
    hide FatSectors, Clusters, BootSector, Splice, Formatted, NewVolume;
    var size, fatSize, dc := ChooseSize(ns);
    c, fs := size, fatSize;
    AllFits(ns, if size == 0 then 1 else size);
    var buf := new Byte[SECTOR_SIZE];
    MemClr(buf);
    FillBoot(buf, size, fatSize, ns);
    FormattedIs(dev[..], size, fatSize);
    WriteOut(dev, buf[..], size, fatSize);
    return 0, c, fs;
  }

  /** The boot sector and the two FATs written, the FATs first cleared. */
  method WriteOut(dev: array<Sector>, boot: Sector, c: nat, fs: nat)
    requires RESERVED + 2 * fs <= dev.Length && RESERVED + fs < dev.Length && boot == BootSector(c, fs, dev.Length)
    modifies dev
    ensures dev[..] == Formatted(old(dev[..]), c, fs)
  {
    hide BootSector, Splice;
    dev[0] := boot;
    for s := RESERVED to RESERVED + 2 * fs
      invariant dev[0] == boot
      invariant forall i :: RESERVED <= i < s ==> dev[i] == Zero()
      invariant forall i :: 0 < i < dev.Length && !(RESERVED <= i < s) ==> dev[i] == old(dev[i])
    {
      dev[s] := Zero();
    }
    dev[RESERVED] := FirstFatSector();
    dev[RESERVED + fs] := FirstFatSector();
  }
}
