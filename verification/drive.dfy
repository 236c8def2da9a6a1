/**
 * Partition geometry, sector/cluster arithmetic, the raw device and the
 * master boot record layout (src/drive.h).
 */
module Drive {
  import opened Usuals
  import opened Bytes

  const SectorSize: nat := 0x200
  const InvalidSector: uint64 := 0xFFFF_FFFF_FFFF_FFFF

  /**
   * The partition being recovered: first and end sector, the configured MFT
   * offset (all 32-bit) and the cluster size in sectors (one byte).
   */
  datatype PartitionInfo = PartitionInfo(first: uint32, end: uint32, mft: uint32, cluster: byte)

  /** What the command line validates before any recovery starts. */
  predicate ValidGeometry(pi: PartitionInfo)
  {
    1 <= pi.cluster <= 128 && pi.first < pi.end
  }

  /** CLUSTER_TO_SECTOR: cluster `c` relative to the partition, as an absolute sector. */
  function ClusterToSector(pi: PartitionInfo, c: uint64): (s: uint64)
    ensures c * pi.cluster + pi.first < U64_LIMIT ==> s == c * pi.cluster + pi.first
    ensures c * pi.cluster + pi.first < U64_LIMIT ==> pi.first <= s
  {
    Wrap64(c * pi.cluster + pi.first)
  }

  /** SECTOR_TO_BYTES, in the 64-bit unsigned arithmetic of the macro's operands. */
  function SectorToBytes(s: uint64): (b: uint64)
    ensures s < U64_LIMIT / SectorSize ==> b == s * SectorSize && b % SectorSize == 0
  {
    Wrap64(s * SectorSize)
  }

  /** CLUSTER_SIZE: bytes in one cluster. */
  function ClusterSize(pi: PartitionInfo): (n: nat)
    ensures n == pi.cluster * SectorSize
    ensures ValidGeometry(pi) ==> SectorSize <= n <= 128 * SectorSize
  {
    pi.cluster * SectorSize
  }

  /** Consecutive clusters map to sectors exactly one cluster apart. */
  lemma ClusterToSectorStep(pi: PartitionInfo, c: uint64)
    requires c + 1 < U64_LIMIT && (c + 1) * pi.cluster + pi.first < U64_LIMIT
    ensures ClusterToSector(pi, c + 1) == ClusterToSector(pi, c) + pi.cluster
  {
  }

  /** The raw device, as the bytes of its image. */
  datatype Device = Device(image: seq<byte>)

  /**
   * Seek to sector `s` and read `n` bytes. The seek position is the 64-bit
   * byte offset reinterpreted as a signed 64-bit file offset, so a position at
   * or above 2^63 makes the seek fail; a short read fails too.
   */
  function ReadSectors(dev: Device, s: uint64, n: nat): (r: Option<seq<byte>>)
    ensures r.Some? ==> |r.value| == n
    ensures r.Some? <==> SectorToBytes(s) < U64_LIMIT / 2 && SectorToBytes(s) + n <= |dev.image|
    ensures r.Some? ==> r.value == dev.image[SectorToBytes(s)..SectorToBytes(s) + n]
  {
    var pos := SectorToBytes(s);
    if pos >= U64_LIMIT / 2 || pos + n > |dev.image| then None
    else Some(dev.image[pos..pos + n])
  }

  /** The sentinel sector cannot be read: its byte position is negative as a file offset. */
  lemma InvalidSectorUnreadable(dev: Device, n: nat)
    ensures ReadSectors(dev, InvalidSector, n).None?
  {
    assert SectorToBytes(InvalidSector) == U64_LIMIT - SectorSize;
  }

  // Master boot record

  const PartitionExtended: byte := 5
  const PartitionExtendedLBA: byte := 15
  const PartitionInvalid: byte := 0
  const MbrSignature: uint16 := 0xAA55
  const MbrTableOffset: nat := 0x1BE
  const PartEntrySize: nat := 16
  const MbrSignatureOffset: nat := 0x1FE
  const MbrSize: nat := 0x200

  /** The fields of one 16-byte partition table entry that the listing uses. */
  datatype PartEntry = PartEntry(system: byte, startsec: uint32, endsec: uint32)

  /** Entry `i` (0..3) of the table in a 512-byte MBR: type @4, start LBA @8, end @12. */
  function PartEntryAt(mbr: seq<byte>, i: nat): (e: PartEntry)
    requires i < 4
    ensures e.system == At(mbr, MbrTableOffset + PartEntrySize * i + 4)
    ensures e.startsec == U32At(mbr, MbrTableOffset + PartEntrySize * i + 8)
    ensures e.endsec == U32At(mbr, MbrTableOffset + PartEntrySize * i + 12)
  {
    var base := MbrTableOffset + PartEntrySize * i;
    PartEntry(U8At(mbr, base + 4), U32At(mbr, base + 8), U32At(mbr, base + 12))
  }

  /**
   * The 16 bytes of a table entry holding `e`: boot flag and CHS start (0),
   * the type, CHS end (0), then start and end sector little-endian.
   */
  function EncodePartEntry(e: PartEntry): (b: seq<byte>)
    ensures |b| == PartEntrySize
  {
    assert Pow256(4) == U32_LIMIT;
    [0, 0, 0, 0, e.system, 0, 0, 0] + EncodeLE(e.startsec, 4) + EncodeLE(e.endsec, 4)
  }

  /** Whatever else the sector holds, entry `i` reads back the entry stored in its 16 bytes. */
  lemma {:induction false} PartEntryRoundTrip(mbr: seq<byte>, i: nat, e: PartEntry)
    requires i < 4
    requires HoldsAt(mbr, MbrTableOffset + PartEntrySize * i, EncodePartEntry(e))
    ensures PartEntryAt(mbr, i) == e
  {
    var p := MbrTableOffset + PartEntrySize * i;
    assert Pow256(4) == U32_LIMIT;
    var a: seq<byte> := [0, 0, 0, 0, e.system, 0, 0, 0];
    var c, d := EncodeLE(e.startsec, 4), EncodeLE(e.endsec, 4);
    assert EncodePartEntry(e) == a + c + d;
    HoldsAppend(mbr, p, a + c, d);
    HoldsAppend(mbr, p, a, c);
    HoldsByte(mbr, p, a, 4);
    LEAtOfEncode(mbr, p + 8, e.startsec, 4);
    LEAtOfEncode(mbr, p + 12, e.endsec, 4);
  }

  /** The four entries and the signature exactly fill one sector. */
  lemma MbrLayout()
    ensures MbrTableOffset + 4 * PartEntrySize == MbrSignatureOffset
    ensures MbrSignatureOffset + 2 == MbrSize == SectorSize
  {
  }
}
