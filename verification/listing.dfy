/**
 * The partition listing (src/list.c): which entries of a master boot record
 * and its extended tables are reported, the bounds reported for them, and
 * the NTFS details read from each reported partition's boot sector.
 */
module Listing {
  import opened Usuals
  import opened Bytes
  import opened Drive
  import Layout

  /** What is printed for an NTFS boot sector: sectors per cluster and the MFT's sector. */
  datatype BootInfo = BootInfo(secPerClus: byte, mftSector: uint64)

  /** One printed line: the partition's bounds and, for NTFS, its boot details. */
  datatype Line = Line(start: uint32, end: uint32, boot: Option<BootInfo>)

  /**
   * printNTFSInfo: read the sector at `tbl` (a failed or short read is
   * fatal) and report it only when it carries the NTFS system id. The MFT
   * sector is offMFT times secPerClus in 64-bit arithmetic.
   */
  function NtfsInfo(dev: Device, tbl: uint64): (r: Outcome<Option<BootInfo>>)
    ensures r.Stop? <==> ReadSectors(dev, tbl, SectorSize).None?
    ensures r.Stop? ==> r.halt == Fatal
    ensures r.Done? ==> var boot := ReadSectors(dev, tbl, SectorSize).value;
      (r.value.Some? <==> boot[Layout.BootSysIdOff..Layout.BootSysIdOff + 8] == Layout.SysId) &&
      (r.value.Some? ==> r.value.value.secPerClus == boot[Layout.BootSecPerClusOff]) &&
      (r.value.Some? ==>
         r.value.value.mftSector == Wrap64(Field(boot, Layout.BootOffMftOff, 8) * boot[Layout.BootSecPerClusOff]))
  {
    match ReadSectors(dev, tbl, SectorSize)
    case None => Stop(Fatal)
    case Some(boot) =>
      if Slice(boot, Layout.BootSysIdOff, 8) == Layout.SysId then
        FieldsAreLittleEndian(boot, Layout.BootOffMftOff);
        var spc := U8At(boot, Layout.BootSecPerClusOff);
        Done(Some(BootInfo(spc, Wrap64(U64At(boot, Layout.BootOffMftOff) * spc))))
      else Done(None)
  }

  /**
   * A boot sector holding the NTFS id, `spc` sectors per cluster and the MFT
   * at cluster `mftc` is reported with exactly those values, the MFT sector
   * being their product modulo 2^64.
   */
  lemma {:induction false} NtfsInfoOfBoot(dev: Device, tbl: uint64, spc: byte, mftc: uint64)
    requires ReadSectors(dev, tbl, SectorSize).Some?
    requires var boot := ReadSectors(dev, tbl, SectorSize).value;
      HoldsAt(boot, Layout.BootSysIdOff, Layout.SysId) && At(boot, Layout.BootSecPerClusOff) == spc &&
      HoldsAt(boot, Layout.BootOffMftOff, EncodeLE(mftc, 8))
    ensures NtfsInfo(dev, tbl) == Done(Some(BootInfo(spc, Wrap64(mftc * spc))))
  {
    var boot := ReadSectors(dev, tbl, SectorSize).value;
    assert Pow256(8) == U64_LIMIT;
    LEAtOfEncode(boot, Layout.BootOffMftOff, mftc, 8);
    forall k | 0 <= k < 8
      ensures boot[Layout.BootSysIdOff + k] == Layout.SysId[k]
    {
      HoldsByte(boot, Layout.BootSysIdOff, Layout.SysId, k);
    }
    assert Slice(boot, Layout.BootSysIdOff, 8) == boot[Layout.BootSysIdOff..Layout.BootSysIdOff + 8];
    assert boot[Layout.BootSysIdOff..Layout.BootSysIdOff + 8] == Layout.SysId;
  }

  predicate IsExtended(system: byte)
  {
    system == PartitionExtended || system == PartitionExtendedLBA
  }

  /**
   * printPartitionInfo at table sector `tbl`. The recursion into extended
   * tables has no depth limit in C; here it is bounded by `fuel`.
   */
  function ListPartitions(dev: Device, tbl: uint64, fuel: nat): (r: Outcome<seq<Line>>)
    decreases fuel, 5
    ensures r.Stop? ==> r.halt == Fatal || r.halt == OutOfFuel
    ensures ReadSectors(dev, tbl, MbrSize).None? ==> r == Stop(Fatal)
    ensures fuel > 0 ==> match ReadSectors(dev, tbl, MbrSize)
      case Some(mbr) => U16At(mbr, MbrSignatureOffset) != MbrSignature ==> r == Done([])
      case None => true
  {
    match ReadSectors(dev, tbl, MbrSize)
    case None => Stop(Fatal)
    case Some(mbr) =>
      if fuel == 0 then Stop(OutOfFuel)
      else if U16At(mbr, MbrSignatureOffset) != MbrSignature then Done([])
      else Entries(dev, tbl, mbr, 0, fuel)
  }

  /** The table's entries from `i` on, in order. */
  function Entries(dev: Device, tbl: uint64, mbr: seq<byte>, i: nat, fuel: nat): (r: Outcome<seq<Line>>)
    requires i <= 4 && fuel > 0
    decreases fuel, 4 - i
    ensures r.Stop? ==> r.halt == Fatal || r.halt == OutOfFuel
    ensures (forall k :: i <= k < 4 ==> PartEntryAt(mbr, k).system == PartitionInvalid) ==> r == Done([])
  {
    if i == 4 then Done([])
    else
      var e := PartEntryAt(mbr, i);
      if IsExtended(e.system) then
        match ListPartitions(dev, Wrap64(tbl + e.startsec), fuel - 1)
        case Stop(h) => Stop(h)
        case Done(nested) =>
          match Entries(dev, tbl, mbr, i + 1, fuel)
          case Stop(h) => Stop(h)
          case Done(rest) => Done(nested + rest)
      else if e.system != PartitionInvalid then
        match NtfsInfo(dev, Wrap64(tbl + e.startsec))
        case Stop(h) => Stop(h)
        case Done(boot) =>
          var line := Line(Wrap32(tbl + e.startsec), Wrap32(tbl + e.endsec), boot);
          match Entries(dev, tbl, mbr, i + 1, fuel)
          case Stop(h) => Stop(h)
          case Done(rest) => Done([line] + rest)
      else Entries(dev, tbl, mbr, i + 1, fuel)
  }

  /** The bounds printed for a list of lines. */
  function Bounds(ls: seq<Line>): (bs: seq<(uint32, uint32)>)
    ensures |bs| == |ls|
  {
    if |ls| == 0 then [] else [(ls[0].start, ls[0].end)] + Bounds(ls[1..])
  }

  /**
   * The reference listing of a table without extended entries: every entry
   * whose type is not zero, in table order, with its bounds offset by the
   * table's sector and reduced to 32 bits.
   */
  function FlatBounds(tbl: uint64, mbr: seq<byte>, i: nat): seq<(uint32, uint32)>
    requires i <= 4
    decreases 4 - i
  {
    if i == 4 then []
    else
      var e := PartEntryAt(mbr, i);
      (if e.system != PartitionInvalid then [(Wrap32(tbl + e.startsec), Wrap32(tbl + e.endsec))] else [])
        + FlatBounds(tbl, mbr, i + 1)
  }

  predicate NoExtended(mbr: seq<byte>, i: nat)
    requires i <= 4
  {
    forall k :: i <= k < 4 ==> !IsExtended(PartEntryAt(mbr, k).system)
  }

  lemma BoundsAppend(a: seq<Line>, b: seq<Line>)
    ensures Bounds(a + b) == Bounds(a) + Bounds(b)
  {
    if |a| > 0 {
      BoundsAppend(a[1..], b);
      assert (a + b)[1..] == a[1..] + b;
    } else {
      assert a + b == b;
    }
  }

  /**
   * Without extended entries the lines are exactly the reference listing;
   * the only way not to finish is a fatal boot-sector read.
   */
  lemma {:induction false} FlatEntries(dev: Device, tbl: uint64, mbr: seq<byte>, i: nat, fuel: nat)
    requires i <= 4 && NoExtended(mbr, i) && fuel > 0
    decreases 4 - i
    ensures var r := Entries(dev, tbl, mbr, i, fuel);
      (r.Stop? ==> r.halt == Fatal) && (r.Done? ==> Bounds(r.value) == FlatBounds(tbl, mbr, i))
  {
    if i < 4 {
      FlatEntries(dev, tbl, mbr, i + 1, fuel);
      var e := PartEntryAt(mbr, i);
      assert !IsExtended(e.system);
      if e.system != PartitionInvalid {
        var r := Entries(dev, tbl, mbr, i + 1, fuel);
        var info := NtfsInfo(dev, Wrap64(tbl + e.startsec));
        if info.Done? && r.Done? {
          var line := Line(Wrap32(tbl + e.startsec), Wrap32(tbl + e.endsec), info.value);
          BoundsAppend([line], r.value);
        }
      }
    }
  }

  /** A signed table without extended entries lists its non-empty entries. */
  lemma FlatTable(dev: Device, tbl: uint64, fuel: nat)
    requires fuel > 0
    requires ReadSectors(dev, tbl, MbrSize).Some?
    requires NoExtended(ReadSectors(dev, tbl, MbrSize).value, 0)
    ensures var r, mbr := ListPartitions(dev, tbl, fuel), ReadSectors(dev, tbl, MbrSize).value;
      var expected := if U16At(mbr, MbrSignatureOffset) == MbrSignature then FlatBounds(tbl, mbr, 0) else [];
      (r.Stop? ==> r.halt == Fatal) && (r.Done? ==> Bounds(r.value) == expected)
  {
    FlatEntries(dev, tbl, ReadSectors(dev, tbl, MbrSize).value, 0, fuel);
  }

  /**
   * An extended entry that points back at its own table (start 0) recurses
   * without end: no amount of fuel finishes the listing.
   */
  lemma {:induction false} SelfLinkedTableNeverFinishes(dev: Device, tbl: uint64, fuel: nat)
    requires ReadSectors(dev, tbl, MbrSize).Some?
    requires var mbr := ReadSectors(dev, tbl, MbrSize).value;
      U16At(mbr, MbrSignatureOffset) == MbrSignature &&
      IsExtended(PartEntryAt(mbr, 0).system) && PartEntryAt(mbr, 0).startsec == 0
    ensures ListPartitions(dev, tbl, fuel) == Stop(OutOfFuel)
  {
    if fuel > 0 {
      SelfLinkedTableNeverFinishes(dev, tbl, fuel - 1);
      SelfLinkedStep(dev, tbl, fuel);
    }
  }

  /** One level of the self-linked recursion: the first entry lists the same table with one unit less. */
  lemma SelfLinkedStep(dev: Device, tbl: uint64, fuel: nat)
    requires fuel > 0 && ReadSectors(dev, tbl, MbrSize).Some?
    requires var mbr := ReadSectors(dev, tbl, MbrSize).value;
      U16At(mbr, MbrSignatureOffset) == MbrSignature &&
      IsExtended(PartEntryAt(mbr, 0).system) && PartEntryAt(mbr, 0).startsec == 0
    requires ListPartitions(dev, tbl, fuel - 1) == Stop(OutOfFuel)
    ensures ListPartitions(dev, tbl, fuel) == Stop(OutOfFuel)
  {
    var mbr := ReadSectors(dev, tbl, MbrSize).value;
    assert Wrap64(tbl + PartEntryAt(mbr, 0).startsec) == tbl;
    assert Entries(dev, tbl, mbr, 0, fuel) == Stop(OutOfFuel);
  }
}
