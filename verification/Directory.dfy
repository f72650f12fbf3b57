/** The 32-byte directory records of a sector. */
module Directories {
  import opened Bytes

  const RECORD_SIZE := 32
  const DELETED: Byte := 0xE5

  /** A file name as it stands in a record: eight and three characters. */
  type FatName = s: seq<Byte> | |s| == 11 witness seq(11, _ => 0)

  /** dir_createDefaultEntry, without a clock: everything but the name is zero. */
  function DefaultRecord(name: FatName): (r: seq<Byte>)
    ensures |r| == RECORD_SIZE
  {
    name + seq(21, _ => 0)
  }

  /** The first cluster a record names, from its two halves. */
  function RecordCluster(s: Sector, i: nat): nat
    requires i < 16
  {
    GetB16(s, 32 * i + 20) * UINT16 + GetB16(s, 32 * i + 26)
  }

  function RecordSize(s: Sector, i: nat): nat
    requires i < 16
  {
    GetB32(s, 32 * i + 28)
  }

  /** The sector after dir_setFirstCluster. */
  function WithCluster(s: Sector, i: nat, cluster: nat): Sector
    requires i < 16
  {
    Splice(Splice(s, 32 * i + 20, Le16(cluster / UINT16)), 32 * i + 26, Le16(cluster))
  }

  /** The sector after dir_setFileSize. */
  function WithSize(s: Sector, i: nat, size: nat): Sector
    requires i < 16
  {
    Splice(s, 32 * i + 28, Le32(size))
  }

  /** Record `i` holds these numbers: the first cluster's low half at 26 and high half at 20, the size at 28, the lowest byte
      first. */
  ghost predicate Fields(s: Sector, i: nat, cluster: int, size: int)
    requires i < 16
  {
    && cluster == Four(s[32 * i + 26], s[32 * i + 27], s[32 * i + 20], s[32 * i + 21])
    && size == Four(s[32 * i + 28], s[32 * i + 29], s[32 * i + 30], s[32 * i + 31])
  }

  lemma RecordFields(s: Sector, i: nat)
    requires i < 16
    ensures Fields(s, i, RecordCluster(s, i), RecordSize(s, i))
  {
  }

  /** `s'` is `s` with a new file in record `i`: the name, attributes 0, first cluster `c`, size 0, every other byte of the
      record 0; every byte outside it is the same. */
  ghost predicate NewFile(s: Sector, s': Sector, i: nat, name: FatName, c: nat)
    requires i < 16
  {
    && (forall k :: 32 * i <= k < 32 * i + 11 ==> s'[k] == name[k - 32 * i])
    && s'[32 * i + 20] == c / 0x1_0000 % 0x100 && s'[32 * i + 21] == c / 0x100_0000 % 0x100
    && s'[32 * i + 26] == c % 0x100 && s'[32 * i + 27] == c / 0x100 % 0x100
    && (forall k :: 32 * i + 11 <= k < 32 * i + 32 ==> k - 32 * i == 20 || k - 32 * i == 21 || k - 32 * i == 26 || k - 32 * i == 27
                                                       || s'[k] == 0)
    && (forall k :: 0 <= k < 512 && !(32 * i <= k < 32 * i + 32) ==> s'[k] == s[k])
  }

  /** `s'` is `s` with the first byte of record `i` set to 0xE5, the mark of deleted files. */
  ghost predicate Erased(s: Sector, s': Sector, i: nat)
    requires i < 16
  {
    s'[32 * i] == 0xE5 && forall k :: 0 <= k < 512 && k != 32 * i ==> s'[k] == s[k]
  }

  /** `s'` is `s` with first cluster `c` in record `i`. */
  ghost predicate HoldsCluster(s: Sector, s': Sector, i: nat, c: nat)
    requires i < 16
  {
    && s'[32 * i + 20] == c / 0x1_0000 % 0x100 && s'[32 * i + 21] == c / 0x100_0000 % 0x100
    && s'[32 * i + 26] == c % 0x100 && s'[32 * i + 27] == c / 0x100 % 0x100
    && forall k :: 0 <= k < 512 ==> k - 32 * i == 20 || k - 32 * i == 21 || k - 32 * i == 26 || k - 32 * i == 27 || s'[k] == s[k]
  }

  /** `s'` is `s` with the size `n` in record `i`: four bytes, the lowest first; every other byte is the same. */
  ghost predicate HoldsSize(s: Sector, s': Sector, i: nat, n: nat)
    requires i < 16
  {
    && s'[32 * i + 28] == n % 0x100 && s'[32 * i + 29] == n / 0x100 % 0x100
    && s'[32 * i + 30] == n / 0x1_0000 % 0x100 && s'[32 * i + 31] == n / 0x100_0000 % 0x100
    && forall k :: 0 <= k < 512 && !(32 * i + 28 <= k < 32 * i + 32) ==> s'[k] == s[k]
  }

  /** Cluster and size are read back as set, and neither disturbs the other. */
  lemma SetThenRead(s: Sector, i: nat, v: nat)
    requires i < 16 && v < UINT32
    ensures RecordCluster(WithCluster(s, i, v), i) == v && RecordSize(WithCluster(s, i, v), i) == RecordSize(s, i)
    ensures RecordSize(WithSize(s, i, v), i) == v && RecordCluster(WithSize(s, i, v), i) == RecordCluster(s, i)
  {
    var hi := Splice(s, 32 * i + 20, Le16(v / UINT16));
    Le16RoundTrip(s, 32 * i + 20, v / UINT16);
    Low(hi, 32 * i + 26, v);
    Le32RoundTrip(s, 32 * i + 28, v);
  }

  /** What the setters, a new file's record and the mark of deleted files are in bytes. */
  lemma ClusterBytes(s: Sector, i: nat, c: nat)
    requires i < 16
    ensures HoldsCluster(s, WithCluster(s, i, c), i, c)
  {
    assert c / UINT16 / 256 == c / 0x100_0000;
  }

  lemma SizeBytes(s: Sector, i: nat, n: nat)
    requires i < 16
    ensures HoldsSize(s, WithSize(s, i, n), i, n)
  {
  }

  lemma ErasedBytes(s: Sector, i: nat)
    requires i < 16
    ensures Erased(s, Splice(s, 32 * i, [DELETED]), i)
  {
  }

  lemma Low(s: Sector, off: nat, v: nat)
    requires off + 2 <= 512
    ensures GetB16(Splice(s, off, Le16(v)), off) == v % UINT16
  {
    Low16(v);
    var r := Splice(s, off, Le16(v));
    assert r[off] == v % 256 && r[off + 1] == v / 256 % 256;
    hide Splice;
  }

  /** The records other than `i` are the same, byte for byte. */
  ghost predicate OtherRecords(s: Sector, s': Sector, i: nat) {
    forall k :: 0 <= k < 512 && !(32 * i <= k < 32 * i + 32) ==> s'[k] == s[k]
  }

  /** So they name the same clusters and sizes. */
  lemma SameRecord(s: Sector, s': Sector, i: nat, j: nat)
    requires OtherRecords(s, s', i) && j < 16 && j != i
    ensures s'[32 * j..32 * j + 32] == s[32 * j..32 * j + 32]
    ensures RecordCluster(s', j) == RecordCluster(s, j) && RecordSize(s', j) == RecordSize(s, j)
  {
    assert forall k :: 32 * j <= k < 32 * j + 32 ==> s'[k] == s[k];
  }

  /** A store inside one record leaves the others alone. */
  lemma StoreInRecord(s: Sector, i: nat, off: nat, bs: seq<Byte>)
    requires i < 16 && 32 * i <= off && off + |bs| <= 32 * i + 32
    ensures OtherRecords(s, Splice(s, off, bs), i)
  {
  }

  lemma OtherRecordsOn(s: Sector, s1: Sector, s2: Sector, i: nat)
    requires OtherRecords(s, s1, i) && OtherRecords(s1, s2, i)
    ensures OtherRecords(s, s2, i)
  {
  }
}
