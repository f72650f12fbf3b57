/** FAT entries packed into sectors: 12-bit entries that share bytes and may straddle two sectors, 16-bit and
    32-bit little-endian entries. */
module FatEntries {
  import opened Arith
  import opened Bytes
  import opened Geometries

  // ---- entries in a string of bytes ----

  /** How many distinct values an entry can hold. */
  function Width(t: FatType): nat {
    match t case FAT12 => 0x1000 case FAT16 => UINT16 case FAT32 => UINT32
  }

  /** How many bytes an entry touches. */
  function Span(t: FatType): nat {
    match t case FAT12 => 2 case FAT16 => 2 case FAT32 => 4
  }

  /** The first byte an entry touches. */
  function EntryByte(t: FatType, c: nat): nat {
    match t case FAT12 => 3 * c / 2 case FAT16 => 2 * c case FAT32 => 4 * c
  }

  /** The value of the entry of cluster `c`, as the on-disc format defines it. */
  function EntryAt(t: FatType, bytes: seq<Byte>, c: nat): (v: nat)
    requires EntryByte(t, c) + Span(t) <= |bytes|
    ensures v < Width(t)
  {
    var k := EntryByte(t, c);
    match t
    case FAT12 => Decode12(c % 2 == 0, bytes[k], bytes[k + 1])
    case FAT16 => GetB16(bytes, k)
    case FAT32 => GetB32(bytes, k)
  }

  function Decode12(even: bool, b0: int, b1: int): int {
    if even then b1 % 16 * 256 + b0 else b1 * 16 + b0 / 16
  }

  /** The bytes the setters store for value `v`; a 12-bit entry keeps its neighbour's nibble. */
  function Encoded(t: FatType, bytes: seq<Byte>, c: nat, v: nat): (bs: seq<Byte>)
    requires EntryByte(t, c) + Span(t) <= |bytes|
    ensures |bs| == Span(t)
  {
    var k := EntryByte(t, c);
    match t
    case FAT12 => [First12(c, bytes[k], v), Second12(c, bytes[k + 1], v)]
    case FAT16 => Le16(v)
    case FAT32 => Le32(v)
  }

  /** The first byte of a 12-bit entry set to `v`, `b` being the byte there before. */
  function First12(c: nat, b: Byte, v: nat): Byte {
    var i: int := b;
    if c % 2 == 0 then v % 256 else i % 16 + v % 16 * 16
  }

  /** The second byte of a 12-bit entry set to `v`, `b` being the byte there before. */
  function Second12(c: nat, b: Byte, v: nat): Byte {
    var i: int := b;
    if c % 2 == 0 then i / 16 * 16 + v / 256 % 16 else v / 16 % 256
  }

  function SetAt(t: FatType, bytes: seq<Byte>, c: nat, v: nat): (bs: seq<Byte>)
    requires EntryByte(t, c) + Span(t) <= |bytes|
    ensures |bs| == |bytes|
  {
    Splice(bytes, EntryByte(t, c), Encoded(t, bytes, c, v))
  }

  /** Reading a set entry gives the value modulo the entry's width; every other entry is unchanged. */
  lemma SetThenGet(t: FatType, bytes: seq<Byte>, c: nat, v: nat, d: nat)
    requires EntryByte(t, c) + Span(t) <= |bytes| && EntryByte(t, d) + Span(t) <= |bytes|
    ensures EntryAt(t, SetAt(t, bytes, c, v), d) == if d == c then v % Width(t) else EntryAt(t, bytes, d)
  {
    match t
    case FAT12 => SetThenGet12(bytes, c, v, d);
    case FAT16 => SetThenGet16(bytes, c, v, d);
    case FAT32 => SetThenGet32(bytes, c, v, d);
  }

  lemma SetThenGet16(bytes: seq<Byte>, c: nat, v: nat, d: nat)
    requires 2 * c + 2 <= |bytes| && 2 * d + 2 <= |bytes|
    ensures GetB16(Splice(bytes, 2 * c, Le16(v)), 2 * d) == if d == c then v % UINT16 else GetB16(bytes, 2 * d)
  {
    if d == c { Low16(v); }
  }

  lemma SetThenGet32(bytes: seq<Byte>, c: nat, v: nat, d: nat)
    requires 4 * c + 4 <= |bytes| && 4 * d + 4 <= |bytes|
    ensures GetB32(Splice(bytes, 4 * c, Le32(v)), 4 * d) == if d == c then v % UINT32 else GetB32(bytes, 4 * d)
  {
    if d == c { Low32(v); }
  }

  lemma SetThenGet12(bytes: seq<Byte>, c: nat, v: nat, d: nat)
    requires EntryByte(FAT12, c) + 2 <= |bytes| && EntryByte(FAT12, d) + 2 <= |bytes|
    ensures EntryAt(FAT12, SetAt(FAT12, bytes, c, v), d) == if d == c then v % 0x1000 else EntryAt(FAT12, bytes, d)
  {
    var k, j := EntryByte(FAT12, c), EntryByte(FAT12, d);
    var x, y := First12(c, bytes[k], v), Second12(c, bytes[k + 1], v);
    var bytes' := SetAt(FAT12, bytes, c, v);
    assert bytes'[j] == if j == k then x else if j == k + 1 then y else bytes[j];
    assert bytes'[j + 1] == if j + 1 == k then x else if j == k then y else bytes[j + 1];
    Placed12(c, d);
    Kept12(c, bytes[k], bytes[k + 1], v);
  }

  /** Where two different 12-bit entries can meet: in the shared byte of an even entry and its successor. */
  lemma Placed12(c: nat, d: nat)
    ensures var k, j := EntryByte(FAT12, c), EntryByte(FAT12, d);
            && (c == d || j + 1 < k || k + 1 < j || (j == k + 1 && c % 2 == 0 && d % 2 == 1) || (j + 1 == k && c % 2 == 1 && d % 2 == 0))
  {
    Half(c);
    Half(d);
  }

  /** The first byte of the entry of an even and of an odd cluster. */
  lemma Half(c: nat)
    ensures var q := c / 2; c == 2 * q + c % 2 && EntryByte(FAT12, c) == 3 * q + c % 2
  {
    var q := c / 2;
    assert 3 * c == 6 * q + 3 * (c % 2);
  }

  /** Both bytes of a set entry decode to the value, and each carries the other entry's nibble along. */
  lemma Kept12(c: nat, b0: Byte, b1: Byte, v: nat)
    ensures Decode12(c % 2 == 0, First12(c, b0, v), Second12(c, b1, v)) == v % 0x1000
    ensures c % 2 == 0 ==> Second12(c, b1, v) as int / 16 == b1 as int / 16
    ensures c % 2 == 1 ==> First12(c, b0, v) as int % 16 == b0 as int % 16
  {
    Nibbles(v);
    var i0: int, i1: int := b0, b1;
    HighNibble(i1, v / 256 % 16);
    LowNibble(i0, v % 16);
    HighNibble(16 * (v % 16), i0 % 16);
  }

  lemma HighNibble(b: int, x: int)
    requires 0 <= x < 16
    ensures (b / 16 * 16 + x) / 16 == b / 16 && (b / 16 * 16 + x) % 16 == x
  {
  }

  lemma LowNibble(b: int, x: int)
    ensures (b % 16 + x * 16) % 16 == b % 16 && (b % 16 + x * 16) / 16 == x
  {
  }

  lemma Nibbles(v: nat)
    ensures v / 256 % 16 * 256 + v % 256 == v % 0x1000
    ensures v / 16 % 256 * 16 + v % 16 == v % 0x1000
  {
    Digits(v, 256, 16);
    Digits(v, 16, 256);
  }

  /** The two lowest digits of a number, to bases `a` and `b`. */
  lemma Digits(v: nat, a: nat, b: nat)
    requires a > 0 && b > 0
    ensures a * b > 0 && v / a % b * a + v % a == v % (a * b)
  {
    var x, y := v / a, v % a;
    var p, r := x / b, x % b;
    DivMod(v, a);
    DivMod(x, b);
    MulMono(1, a, b);
    assert v == (p * b + r) * a + y;
    assert (p * b + r) * a == p * (a * b) + r * a;
    MulMono(r + 1, b, a);
    assert (r + 1) * a == r * a + a;
    Commute(a, b);
    DivModUnique(v, a * b, p, r * a + y);
  }

  lemma Low32(v: nat)
    ensures v % 256 + 256 * (v / 256 % 256) + 0x1_0000 * (v / 0x1_0000 % 256) + 0x100_0000 * (v / 0x100_0000 % 256) == v % UINT32
  {
    var v1, v2, v3 := v / 256, v / 256 / 256, v / 256 / 256 / 256;
    assert v == 256 * v1 + v % 256 && v1 == 256 * v2 + v1 % 256 && v2 == 256 * v3 + v2 % 256 && v3 == 256 * (v3 / 256) + v3 % 256;
    Quotient(v, 0x1_0000, v2);
    Quotient(v, 0x100_0000, v3);
    Quotient(v, UINT32, v3 / 256);
  }

  lemma Quotient(v: nat, d: nat, q: nat)
    requires d > 0 && d * q <= v < d * q + d
    ensures v / d == q && v % d == v - d * q
  {
    Commute(d, q);
    DivModUnique(v, d, q, v - d * q);
  }

  // ---- entries on the disc ----

  /** A disc on which the first FAT fits and covers all clusters. */
  predicate HasFat(g: Geometry, disc: seq<Sector>) {
    FatCovers(g) && g.reserved > 0 && g.reserved + g.fatSectors <= |disc|
  }

  /** The first FAT as one string of bytes. */
  function FatBytes(g: Geometry, disc: seq<Sector>): (bs: seq<Byte>)
    requires HasFat(g, disc)
    ensures |bs| == 512 * g.fatSectors
  {
    seq(512 * g.fatSectors, k requires 0 <= k < 512 * g.fatSectors => disc[g.reserved + k / 512][k % 512])
  }

  lemma EntryFits(g: Geometry, c: nat)
    requires FatCovers(g) && c < g.dcc + 2
    ensures EntryByte(g.fatType, c) + Span(g.fatType) <= 512 * g.fatSectors
  {
  }

  /** That is exactly when the FAT has all bytes of every entry. */
  lemma CoversExactly(g: Geometry)
    ensures FatCovers(g) <==> forall c :: 0 <= c < g.dcc + 2 ==> EntryByte(g.fatType, c) + Span(g.fatType) <= 512 * g.fatSectors
  {
    var last := g.dcc + 1;
    if EntryByte(g.fatType, last) + Span(g.fatType) > 512 * g.fatSectors {
      assert !FatCovers(g);
    } else {
      assert FatCovers(g);
      forall c | 0 <= c < g.dcc + 2 ensures EntryByte(g.fatType, c) + Span(g.fatType) <= 512 * g.fatSectors { EntryFits(g, c); }
    }
  }

  /** All entries of the first FAT, the two reserved ones included. */
  function Fat(g: Geometry, disc: seq<Sector>): (f: seq<nat>)
    requires HasFat(g, disc)
    ensures |f| == g.dcc + 2
    ensures forall c :: 0 <= c < |f| ==> f[c] < Width(g.fatType)
  {
    seq(g.dcc + 2, c requires 0 <= c < g.dcc + 2 => EntryFits(g, c); EntryAt(g.fatType, FatBytes(g, disc), c))
  }

  /** Byte `k` of the first FAT, as a number. */
  function FatByte(g: Geometry, disc: seq<Sector>, k: nat): int
    requires HasFat(g, disc) && k < 512 * g.fatSectors
  {
    disc[g.reserved + k / 512][k % 512]
  }

  /** The entries byte by byte. An even 12-bit entry is a byte and the low half of the next one, an odd one the high half of
      a byte and the next one; wider entries begin with their lowest byte. */
  lemma EntryOnDisc(g: Geometry, disc: seq<Sector>, c: nat)
    requires HasFat(g, disc) && c < g.dcc + 2
    ensures g.fatType == FAT12 ==>
              var k := c + c / 2;
              && k + 1 < 512 * g.fatSectors
              && var b0, b1 := FatByte(g, disc, k), FatByte(g, disc, k + 1);
              Fat(g, disc)[c] == if c % 2 == 0 then b0 + 256 * (b1 % 16) else b0 / 16 + 16 * b1
    ensures g.fatType == FAT16 ==>
              && 2 * c + 1 < 512 * g.fatSectors
              && Fat(g, disc)[c] == Two(FatByte(g, disc, 2 * c), FatByte(g, disc, 2 * c + 1))
    ensures g.fatType == FAT32 ==>
              && 4 * c + 3 < 512 * g.fatSectors
              && Fat(g, disc)[c] == Four(FatByte(g, disc, 4 * c), FatByte(g, disc, 4 * c + 1),
                                         FatByte(g, disc, 4 * c + 2), FatByte(g, disc, 4 * c + 3))
  {
    EntryFits(g, c);
    EntryIs(g, disc, c);
    hide FatCovers, EntryByte, EntryAt, Fat, FatBytes, FatByte, Width;
    match g.fatType
    case FAT12 => Begins12(c);
    case FAT16 => BeginsWide(c);
    case FAT32 => BeginsWide(c);
  }

  lemma Begins12(c: nat)
    ensures EntryByte(FAT12, c) == c + c / 2
  {
    Half(c);
  }

  lemma BeginsWide(c: nat)
    ensures EntryByte(FAT16, c) == 2 * c && EntryByte(FAT32, c) == 4 * c
  {
  }

  lemma EntryIs(g: Geometry, disc: seq<Sector>, c: nat)
    requires HasFat(g, disc) && c < g.dcc + 2 && EntryByte(g.fatType, c) + Span(g.fatType) <= 512 * g.fatSectors
    ensures var k := EntryByte(g.fatType, c);
            match g.fatType
            case FAT12 =>
              var b0, b1 := FatByte(g, disc, k), FatByte(g, disc, k + 1);
              Fat(g, disc)[c] == if c % 2 == 0 then b0 + 256 * (b1 % 16) else b0 / 16 + 16 * b1
            case FAT16 => Fat(g, disc)[c] == Two(FatByte(g, disc, k), FatByte(g, disc, k + 1))
            case FAT32 =>
              Fat(g, disc)[c] == Four(FatByte(g, disc, k), FatByte(g, disc, k + 1), FatByte(g, disc, k + 2), FatByte(g, disc, k + 3))
  {
    var k := EntryByte(g.fatType, c);
    FatByteIs(g, disc, k);
    FatByteIs(g, disc, k + 1);
    if g.fatType == FAT32 { FatByteIs(g, disc, k + 2); FatByteIs(g, disc, k + 3); }
    hide FatBytes, FatByte, FatCovers, EntryByte;
  }

  lemma FatByteIs(g: Geometry, disc: seq<Sector>, k: nat)
    requires HasFat(g, disc) && k < 512 * g.fatSectors
    ensures FatByte(g, disc, k) == FatBytes(g, disc)[k]
  {
  }

  /** fat_getSectorAddressFatEntry: the sector that holds (the first byte of) an entry, 0 when past the FAT. */
  function SectorAddress(g: Geometry, c: nat): nat {
    var res := match g.fatType case FAT12 => c * 3 / 1024 case FAT16 => c / 256 case FAT32 => c / 128;
    if res >= g.fatSectors then 0 else g.reserved + res
  }

  /** The offset of an entry's first byte in its sector, as the entry functions compute it. */
  function EntryOffset(t: FatType, c: nat): nat {
    match t case FAT12 => c % 1024 * 3 / 2 % 512 case FAT16 => 2 * (c % 256) case FAT32 => 4 * (c % 128)
  }

  /** The entry of `c` continues in the next sector. */
  predicate Straddles(t: FatType, c: nat) {
    t == FAT12 && EntryOffset(t, c) == 511
  }

  /** Two clusters out of 1024 have such an entry. */
  lemma StraddlesIff(t: FatType, c: nat)
    ensures Straddles(t, c) <==> t == FAT12 && c % 1024 in {341, 682}
  {
  }

  /** How many buffers an access to one entry may hold at once: a 12-bit entry may lie in two sectors. */
  function Buffers(g: Geometry): nat {
    if g.fatType == FAT12 then 2 else 1
  }

  /** Sector and offset locate the entry's first byte; only a 12-bit entry can run into the next sector. */
  lemma EntryLocated(g: Geometry, c: nat)
    requires FatCovers(g) && g.reserved > 0 && c < g.dcc + 2
    ensures g.reserved <= SectorAddress(g, c) < g.reserved + g.fatSectors
    ensures EntryByte(g.fatType, c) == 512 * (SectorAddress(g, c) - g.reserved) + EntryOffset(g.fatType, c)
    ensures EntryOffset(g.fatType, c) < 512
    ensures EntryOffset(g.fatType, c) + Span(g.fatType) <= 512 || (g.fatType == FAT12 && EntryOffset(FAT12, c) == 511)
    ensures g.fatType == FAT12 && EntryOffset(FAT12, c) == 511 ==> SectorAddress(g, c) + 1 < g.reserved + g.fatSectors
  {
    match g.fatType
    case FAT12 => Located12(c);
    case FAT16 =>
    case FAT32 =>
  }

  lemma Located12(c: nat)
    ensures 3 * c / 2 == 512 * (c * 3 / 1024) + c % 1024 * 3 / 2 % 512
  {
    var q, r := c / 1024, c % 1024;
    assert c == 1024 * q + r;
    assert 3 * c / 2 == 1536 * q + r * 3 / 2;
    assert c * 3 / 1024 == 3 * q + r * 3 / 1024;
    assert r * 3 / 2 == 512 * (r * 3 / 1024) + r * 3 / 2 % 512;
  }

  /** A store inside one sector of the FAT is the same store in its string of bytes. */
  lemma StoreInFat(g: Geometry, disc: seq<Sector>, i: nat, off: nat, bs: seq<Byte>)
    requires HasFat(g, disc) && i < g.fatSectors && off + |bs| <= 512
    ensures var s := g.reserved + i;
            FatBytes(g, disc[s := Splice(disc[s], off, bs)]) == Splice(FatBytes(g, disc), 512 * i + off, bs)
  {
    var s := g.reserved + i;
    var l, r := FatBytes(g, disc[s := Splice(disc[s], off, bs)]), Splice(FatBytes(g, disc), 512 * i + off, bs);
    forall k | 0 <= k < |l| ensures l[k] == r[k] {
      assert k == 512 * (k / 512) + k % 512;
    }
  }

  /** Byte `off` of FAT sector `i`. */
  lemma LoadFromFat(g: Geometry, disc: seq<Sector>, i: nat, off: nat)
    requires HasFat(g, disc) && i < g.fatSectors && off < 512
    ensures FatBytes(g, disc)[512 * i + off] == disc[g.reserved + i][off]
  {
    assert (512 * i + off) / 512 == i && (512 * i + off) % 512 == off;
  }

  /** Setting an entry and reading the FAT back. */
  lemma FatAfterSet(g: Geometry, disc: seq<Sector>, disc': seq<Sector>, c: nat, v: nat)
    requires HasFat(g, disc) && HasFat(g, disc') && c < g.dcc + 2
    requires EntryByte(g.fatType, c) + Span(g.fatType) <= 512 * g.fatSectors
    requires FatBytes(g, disc') == SetAt(g.fatType, FatBytes(g, disc), c, v)
    ensures Fat(g, disc') == Fat(g, disc)[c := v % Width(g.fatType)]
  {
    var f, f' := Fat(g, disc)[c := v % Width(g.fatType)], Fat(g, disc');
    forall d | 0 <= d < |f| ensures f'[d] == f[d] {
      EntryFits(g, d);
      SetThenGet(g.fatType, FatBytes(g, disc), c, v, d);
    }
  }

  /** Discs that agree on the sectors of the first FAT have the same entries. */
  lemma FatDependsOnFatSectors(g: Geometry, disc: seq<Sector>, disc': seq<Sector>)
    requires HasFat(g, disc) && |disc'| == |disc|
    requires forall s :: g.reserved <= s < g.reserved + g.fatSectors ==> disc'[s] == disc[s]
    ensures Fat(g, disc') == Fat(g, disc)
  {
    assert FatBytes(g, disc') == FatBytes(g, disc);
  }

  // ---- what the entry functions compute ----

  /** The getter's formula, on the sector (or two) it loads. */
  lemma ReadEntry(g: Geometry, disc: seq<Sector>, c: nat)
    requires HasFat(g, disc) && c < g.dcc + 2
    ensures var s, off := SectorAddress(g, c), EntryOffset(g.fatType, c);
            && s < |disc| && off < 512
            && (g.fatType == FAT12 && off == 511 ==>
                  s + 1 < |disc| && Fat(g, disc)[c] == Decode12(c % 2 == 0, disc[s][511], disc[s + 1][0]))
            && (g.fatType == FAT12 && off < 511 ==> Fat(g, disc)[c] == Decode12(c % 2 == 0, disc[s][off], disc[s][off + 1]))
            && (g.fatType == FAT16 ==> off + 2 <= 512 && Fat(g, disc)[c] == GetB16(disc[s], off))
            && (g.fatType == FAT32 ==> off + 4 <= 512 && Fat(g, disc)[c] == GetB32(disc[s], off))
  {
    hide Fat, FatBytes, FatCovers, SectorAddress, EntryOffset, EntryByte, Decode12, GetB16, GetB32;
    EntryLocated(g, c);
    var s, off := SectorAddress(g, c), EntryOffset(g.fatType, c);
    FatEntry(g, disc, c);
    match g.fatType
    case FAT12 => ReadEntry12(g, disc, c, s - g.reserved, off);
    case FAT16 => LoadWide(g, disc, s - g.reserved, off);
    case FAT32 => LoadWide(g, disc, s - g.reserved, off);
  }

  lemma ReadEntry12(g: Geometry, disc: seq<Sector>, c: nat, i: nat, off: nat)
    requires HasFat(g, disc) && i < g.fatSectors && off < 512 && (off == 511 ==> i + 1 < g.fatSectors)
    requires EntryByte(FAT12, c) == 512 * i + off
    ensures EntryAt(FAT12, FatBytes(g, disc), c)
         == Decode12(c % 2 == 0, disc[g.reserved + i][off], if off == 511 then disc[g.reserved + i + 1][0] else disc[g.reserved + i][off + 1])
  {
    LoadFromFat(g, disc, i, off);
    if off == 511 { LoadFromFat(g, disc, i + 1, 0); } else { LoadFromFat(g, disc, i, off + 1); }
    hide FatBytes, Decode12, EntryByte;
  }

  /** The fields at an offset of a FAT sector. */
  lemma LoadWide(g: Geometry, disc: seq<Sector>, i: nat, off: nat)
    requires HasFat(g, disc) && i < g.fatSectors && off + 2 <= 512
    ensures GetB16(FatBytes(g, disc), 512 * i + off) == GetB16(disc[g.reserved + i], off)
    ensures off + 4 <= 512 ==> GetB32(FatBytes(g, disc), 512 * i + off) == GetB32(disc[g.reserved + i], off)
  {
    LoadFromFat(g, disc, i, off);
    LoadFromFat(g, disc, i, off + 1);
    if off + 4 <= 512 {
      LoadFromFat(g, disc, i, off + 2);
      LoadFromFat(g, disc, i, off + 3);
    }
    hide FatBytes;
  }

  lemma FatEntry(g: Geometry, disc: seq<Sector>, c: nat)
    requires HasFat(g, disc) && c < g.dcc + 2
    ensures EntryByte(g.fatType, c) + Span(g.fatType) <= 512 * g.fatSectors
    ensures Fat(g, disc)[c] == EntryAt(g.fatType, FatBytes(g, disc), c)
  {
    EntryFits(g, c);
    hide FatBytes, EntryAt;
  }

  /** The setter's one store for a 16- or 32-bit entry. */
  lemma StoreWide(g: Geometry, disc: seq<Sector>, c: nat, v: nat)
    requires HasFat(g, disc) && c < g.dcc + 2 && g.fatType != FAT12
    ensures var s, off := SectorAddress(g, c), EntryOffset(g.fatType, c);
            var bs := if g.fatType == FAT16 then Le16(v) else Le32(v);
            && g.reserved <= s < g.reserved + g.fatSectors && off + |bs| <= 512
            && Fat(g, disc[s := Splice(disc[s], off, bs)]) == Fat(g, disc)[c := v % Width(g.fatType)]
  {
    hide Fat, FatBytes, FatCovers, SectorAddress, EntryOffset, EntryByte, Splice;
    EntryLocated(g, c);
    EntryFits(g, c);
    var s, off := SectorAddress(g, c), EntryOffset(g.fatType, c);
    var bs := if g.fatType == FAT16 then Le16(v) else Le32(v);
    StoreInFat(g, disc, s - g.reserved, off, bs);
    FatAfterSet(g, disc, disc[s := Splice(disc[s], off, bs)], c, v);
  }

  /** Where the second byte of a 12-bit entry is. */
  function Second(s: nat, off: nat): (nat, nat) {
    if off == 511 then (s + 1, 0) else (s, off + 1)
  }

  /** Two stores of adjacent bytes, wherever the sector boundary is. */
  lemma TwoStores(g: Geometry, disc: seq<Sector>, d1: seq<Sector>, d2: seq<Sector>,
                  i: nat, off: nat, i2: nat, off2: nat, x: Byte, y: Byte)
    requires HasFat(g, disc) && i < g.fatSectors && off < 512 && i2 < g.fatSectors && off2 < 512
    requires 512 * i2 + off2 == 512 * i + off + 1
    requires d1 == disc[g.reserved + i := Splice(disc[g.reserved + i], off, [x])]
    requires d2 == d1[g.reserved + i2 := Splice(d1[g.reserved + i2], off2, [y])]
    ensures d1[g.reserved + i2][off2] == FatBytes(g, disc)[512 * i + off + 1]
    ensures FatBytes(g, d2) == Splice(FatBytes(g, disc), 512 * i + off, [x, y])
  {
    StoreInFat(g, disc, i, off, [x]);
    StoreInFat(g, d1, i2, off2, [y]);
    SpliceTwo(FatBytes(g, disc), FatBytes(g, d1), FatBytes(g, d2), 512 * i + off, x, y);
    LoadFromFat(g, d1, i2, off2);
  }

  lemma SpliceTwo(b: seq<Byte>, b1: seq<Byte>, b2: seq<Byte>, k: nat, x: Byte, y: Byte)
    requires k + 1 < |b| && b1 == Splice(b, k, [x]) && b2 == Splice(b1, k + 1, [y])
    ensures b1[k + 1] == b[k + 1] && b2 == Splice(b, k, [x, y])
  {
  }

  /** The setter's two stores for a 12-bit entry, in one sector or across two. */
  lemma StoreNarrow(g: Geometry, disc: seq<Sector>, c: nat, v: nat)
    requires HasFat(g, disc) && c < g.dcc + 2 && g.fatType == FAT12
    ensures var s, off := SectorAddress(g, c), EntryOffset(FAT12, c);
            var (s2, off2) := Second(s, off);
            && g.reserved <= s <= s2 < g.reserved + g.fatSectors && off < 512 && off2 < 512
            && var d1 := disc[s := Splice(disc[s], off, [First12(c, disc[s][off], v)])];
            && Fat(g, d1[s2 := Splice(d1[s2], off2, [Second12(c, d1[s2][off2], v)])]) == Fat(g, disc)[c := v % Width(FAT12)]
  {
    hide Fat, FatBytes, FatCovers, SectorAddress, EntryOffset, EntryByte, First12, Second12, Splice;
    EntryLocated(g, c);
    EntryFits(g, c);
    var s, off := SectorAddress(g, c), EntryOffset(FAT12, c);
    var (s2, off2) := Second(s, off);
    LoadFromFat(g, disc, s - g.reserved, off);
    var x := First12(c, disc[s][off], v);
    var d1 := disc[s := Splice(disc[s], off, [x])];
    var y := Second12(c, d1[s2][off2], v);
    TwoStores(g, disc, d1, d1[s2 := Splice(d1[s2], off2, [y])], s - g.reserved, off, s2 - g.reserved, off2, x, y);
    FatAfterSet(g, disc, d1[s2 := Splice(d1[s2], off2, [y])], c, v);
  }
}
