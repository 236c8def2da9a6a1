/**
 * The NTFS on-disk structures (src/ntfs.h): constants, the byte offset of
 * every field the recovery code reads, and accessors over byte buffers.
 *
 * Each packed structure is also written down as its sequence of field widths;
 * the layout lemmas check that every offset used by the accessors is the sum
 * of the widths of the fields in front of it.
 */
module Layout {
  import opened Usuals
  import opened Bytes

  /** MFT records are assumed to be 1 KiB. */
  const RecordLen: nat := 0x400

  /** 'ELIF' as a multi-character constant: the bytes "FILE" read little-endian. */
  const RecMagic: uint32 := 0x454C_4946
  const RecEnd: uint32 := 0xFFFF_FFFF
  const RecHeaderLen: nat := 0x30

  const RecFlagUse: uint16 := 0x01
  const RecFlagDir: uint16 := 0x02

  /** The low 48 bits of a file reference are the MFT record index. */
  const RefMask: nat := 0xFFFF_FFFF_FFFF

  const AttrCompressed: uint16 := 0x0001
  const AttrEncrypted: uint16 := 0x0002
  const AttrSparse: uint16 := 0x0004

  const AttributeList: uint32 := 0x20
  const FileName: uint32 := 0x30
  const Data: uint32 := 0x80

  const NameSpacePosix: byte := 0x00
  const NameSpaceWin32: byte := 0x01
  const NameSpaceDos: byte := 0x02
  const NameSpaceWinDos: byte := 0x03

  /** "NTFS    " */
  const SysId: seq<byte> := [0x4E, 0x54, 0x46, 0x53, 0x20, 0x20, 0x20, 0x20]
  /** "$MFT" */
  const MftName: string := "$MFT"

  /** Offset of field `k` of a packed structure with field widths `ws`. */
  function OffsetOf(ws: seq<nat>, k: nat): nat
    requires k <= |ws|
  {
    if k == 0 then 0 else OffsetOf(ws, k - 1) + ws[k - 1]
  }

  /** Total size of a packed structure. */
  function Sum(ws: seq<nat>): nat
  {
    OffsetOf(ws, |ws|)
  }

  // Boot sector: jmp, sysId, bytePerSec, secPerClus, padding, mediaDescriptor,
  // padding2, secPerTrack, numHeads, padding3, signature, cSectors, offMFT, ...
  const BootWidths: seq<nat> := [3, 8, 2, 1, 7, 1, 2, 2, 2, 8, 4, 8, 8, 8, 4, 4, 8]
  const BootSysIdOff: nat := 0x03
  const BootSecPerClusOff: nat := 0x0D
  const BootOffMftOff: nat := 0x30

  // Record header: magic, offUpdSeq, cwUpdSeq, logSeqNum, seqNum, cHardlinks,
  // offAttrs, flags, cbRecord, cbAllocated, refBaseRecord, nextAttrId, padding, recordNum.
  const RecordHeaderWidths: seq<nat> := [4, 2, 2, 8, 2, 2, 2, 2, 4, 4, 8, 2, 2, 4]
  const RecMagicOff: nat := 0x00
  const RecOffUpdSeqOff: nat := 0x04
  const RecCwUpdSeqOff: nat := 0x06
  const RecOffAttrsOff: nat := 0x14
  const RecFlagsOff: nat := 0x16

  // Common attribute header: type, cbAttribute, bNonResident, cName, offName, flags, idAttribute.
  const AttrHeaderWidths: seq<nat> := [4, 4, 1, 1, 2, 2, 2]
  const AttrHeaderLen: nat := 16
  const AttrTypeOff: nat := 0x00
  const AttrLengthOff: nat := 0x04
  const AttrNonResidentOff: nat := 0x08
  const AttrFlagsOff: nat := 0x0C

  // Resident form: header, cbAttribData, offAttribData, bIndexed, padding.
  const ResidentWidths: seq<nat> := [16, 4, 2, 1, 1]
  const ResDataLengthOff: nat := 0x10
  const ResDataOffsetOff: nat := 0x14

  // Non-resident form: header, startVCN, lastVCN, offDataRuns, compUnitSize,
  // padding, cbAllocated, cbAttribData, cbInitData.
  const NonResidentWidths: seq<nat> := [16, 8, 8, 2, 2, 4, 8, 8, 8]
  const NonResRunsOff: nat := 0x20
  const NonResAllocatedOff: nat := 0x28
  const NonResDataSizeOff: nat := 0x30
  const NonResInitSizeOff: nat := 0x38

  // File-name payload: refParent, timeCreated, timeAltered, timeModified,
  // timeRead, cbAllocated, cbFileSize, flags, eaReparse, cFileName, nameSpace.
  const FileNameWidths: seq<nat> := [8, 8, 8, 8, 8, 8, 8, 4, 4, 1, 1]
  const FileNameFixedLen: nat := 0x42
  const FnParentOff: nat := 0x00
  const FnCreatedOff: nat := 0x08
  const FnModifiedOff: nat := 0x18
  const FnReadOff: nat := 0x20
  const FnFlagsOff: nat := 0x38
  const FnLengthOff: nat := 0x40
  const FnNameSpaceOff: nat := 0x41

  // Attribute-list entry: type, cbRecord, cName, offName, startVCN, refAttrib, idAttribute.
  const ListEntryWidths: seq<nat> := [4, 2, 1, 1, 8, 8, 2]
  const ListTypeOff: nat := 0x00
  const ListLengthOff: nat := 0x04
  const ListRefOff: nat := 0x10

  lemma BootSectorLayout()
    ensures OffsetOf(BootWidths, 1) == BootSysIdOff
    ensures OffsetOf(BootWidths, 3) == BootSecPerClusOff
    ensures OffsetOf(BootWidths, 12) == BootOffMftOff
  {
  }

  lemma RecordHeaderLayout()
    ensures OffsetOf(RecordHeaderWidths, 1) == RecOffUpdSeqOff
    ensures OffsetOf(RecordHeaderWidths, 2) == RecCwUpdSeqOff
    ensures OffsetOf(RecordHeaderWidths, 6) == RecOffAttrsOff
    ensures OffsetOf(RecordHeaderWidths, 7) == RecFlagsOff
    ensures Sum(RecordHeaderWidths) == RecHeaderLen
  {
    assert |RecordHeaderWidths| == 14;
  }

  lemma AttributeLayout()
    ensures OffsetOf(AttrHeaderWidths, 1) == AttrLengthOff
    ensures OffsetOf(AttrHeaderWidths, 2) == AttrNonResidentOff
    ensures OffsetOf(AttrHeaderWidths, 5) == AttrFlagsOff
    ensures Sum(AttrHeaderWidths) == AttrHeaderLen == ResidentWidths[0] == NonResidentWidths[0]
    ensures OffsetOf(ResidentWidths, 1) == ResDataLengthOff
    ensures OffsetOf(ResidentWidths, 2) == ResDataOffsetOff
    ensures OffsetOf(NonResidentWidths, 3) == NonResRunsOff
    ensures OffsetOf(NonResidentWidths, 6) == NonResAllocatedOff
    ensures OffsetOf(NonResidentWidths, 7) == NonResDataSizeOff
    ensures OffsetOf(NonResidentWidths, 8) == NonResInitSizeOff
  {
    assert |AttrHeaderWidths| == 7;
  }

  lemma FileNameLayout()
    ensures OffsetOf(FileNameWidths, 1) == FnCreatedOff
    ensures OffsetOf(FileNameWidths, 3) == FnModifiedOff
    ensures OffsetOf(FileNameWidths, 4) == FnReadOff
    ensures OffsetOf(FileNameWidths, 7) == FnFlagsOff
    ensures OffsetOf(FileNameWidths, 9) == FnLengthOff
    ensures OffsetOf(FileNameWidths, 10) == FnNameSpaceOff
    ensures Sum(FileNameWidths) == FileNameFixedLen
  {
    assert |FileNameWidths| == 11;
  }

  lemma ListEntryLayout()
    ensures OffsetOf(ListEntryWidths, 1) == ListLengthOff
    ensures OffsetOf(ListEntryWidths, 5) == ListRefOff
  {
  }

  /** The magic constant is the ASCII text "FILE" stored little-endian. */
  lemma MagicIsFileText()
    ensures EncodeLE(RecMagic, 4) == [0x46, 0x49, 0x4C, 0x45]
  {
  }

  // Record header accessors

  function RecMagicOf(rec: seq<byte>): uint32 { U32At(rec, RecMagicOff) }
  function OffUpdSeq(rec: seq<byte>): uint16 { U16At(rec, RecOffUpdSeqOff) }
  function CwUpdSeq(rec: seq<byte>): uint16 { U16At(rec, RecCwUpdSeqOff) }
  function OffAttrs(rec: seq<byte>): uint16 { U16At(rec, RecOffAttrsOff) }
  function RecFlags(rec: seq<byte>): uint16 { U16At(rec, RecFlagsOff) }

  predicate InUse(rec: seq<byte>) { RecFlags(rec) % 2 == 1 }
  predicate IsDirectory(rec: seq<byte>) { (RecFlags(rec) / 2) % 2 == 1 }

  // Attribute header accessors (`a` is the header's offset in the buffer)

  function AttrType(buf: seq<byte>, a: int): uint32 { U32At(buf, a + AttrTypeOff) }
  function AttrLength(buf: seq<byte>, a: int): uint32 { U32At(buf, a + AttrLengthOff) }
  function AttrNonResident(buf: seq<byte>, a: int): byte { U8At(buf, a + AttrNonResidentOff) }
  function AttrFlags(buf: seq<byte>, a: int): uint16 { U16At(buf, a + AttrFlagsOff) }
  function ResDataLength(buf: seq<byte>, a: int): uint32 { U32At(buf, a + ResDataLengthOff) }
  function ResDataOffset(buf: seq<byte>, a: int): uint16 { U16At(buf, a + ResDataOffsetOff) }
  function NonResRunsOffset(buf: seq<byte>, a: int): uint16 { U16At(buf, a + NonResRunsOff) }
  function NonResDataSize(buf: seq<byte>, a: int): uint64 { U64At(buf, a + NonResDataSizeOff) }

  // File-name payload accessors (`p` is the payload's offset)

  function FnParent(buf: seq<byte>, p: int): uint64 { U64At(buf, p + FnParentOff) }
  function FnCreated(buf: seq<byte>, p: int): uint64 { U64At(buf, p + FnCreatedOff) }
  function FnModified(buf: seq<byte>, p: int): uint64 { U64At(buf, p + FnModifiedOff) }
  function FnRead(buf: seq<byte>, p: int): uint64 { U64At(buf, p + FnReadOff) }
  function FnFlags(buf: seq<byte>, p: int): uint32 { U32At(buf, p + FnFlagsOff) }
  function FnLength(buf: seq<byte>, p: int): byte { U8At(buf, p + FnLengthOff) }
  function FnNameSpace(buf: seq<byte>, p: int): byte { U8At(buf, p + FnNameSpaceOff) }

  /** The name's UTF-16 code units, which follow the fixed part of the payload. */
  function FnUnits(buf: seq<byte>, p: int): (units: seq<uint16>)
    ensures |units| == FnLength(buf, p)
  {
    seq<uint16>(FnLength(buf, p), k requires 0 <= k < FnLength(buf, p) =>
      U16At(buf, p + FileNameFixedLen + 2 * k))
  }

  // Attribute-list entry accessors (`e` is the entry's offset)

  function ListType(buf: seq<byte>, e: int): uint32 { U32At(buf, e + ListTypeOff) }
  function ListLength(buf: seq<byte>, e: int): uint16 { U16At(buf, e + ListLengthOff) }
  function ListRef(buf: seq<byte>, e: int): uint64 { U64At(buf, e + ListRefOff) }

  /** The MFT record index of a file reference: its low 48 bits. */
  function RefIndex(ref: uint64): (i: uint64)
    ensures i < 0x1_0000_0000_0000
    ensures ref < 0x1_0000_0000_0000 ==> i == ref
    ensures (ref - i) % 0x1_0000_0000_0000 == 0
  {
    ref % (RefMask + 1)
  }
}
