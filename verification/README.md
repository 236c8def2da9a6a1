# scrounge-ntfs in Dafny

A model of the recovery core of scrounge-ntfs, a tool that copies files off
a damaged NTFS partition. It does this either by walking the Master File
Table (MFT) through its map of data runs, or by scanning every sector of the
partition for MFT records. The project models the following parts:

- **Record decoding.** The multi-sector fixup check, the attribute walk over
  a record buffer, the file-name namespace ranking, and the on-disk layouts
  of the boot sector, record header, attribute headers, file-name payload and
  attribute-list entries.
- **Data runs.** The nibble-packed run decoder with sign-extended cluster
  deltas.
- **Records and the MFT map.** Record validation, attribute lookup with its
  attribute-list fallback, and the MFT map: runs become blocks, and a record
  index becomes a sector.
- **Locks and reference counts.** The interval lock set of `misc.c`, the
  older lock variant of `drive.cpp`, and the reference counts of `misc.c`.
- **The recovery driver.**
  - The choice of the file-name attribute, the skip rules and the
    parent-first recursion.
  - Renaming on a name collision.
  - The run-by-run copy with its byte accounting and sector locking.
  - The MFT index loop and the raw scan.
- **Small helpers.**
  - Sector, cluster and byte arithmetic.
  - UCS-2 to UTF-8 and back.
  - `itow` and `fixprogname`.
  - The NTFS timestamp conversion.
  - The partition-table listing.

## How the model is built

- **Buffers.** A buffer is a `seq<byte>`. Little-endian fields are read
  through `Bytes.U16At`/`U32At`/`U64At`. A byte outside the buffer reads as 0.
- **Widths.** Integers are `uint16`/`uint32`/`uint64` subset types. Wrap-around
  is written out with `Usuals.Wrap32` and `Usuals.Wrap64`.
- **Device.** The device is a byte image, `Drive.Device`.
- **Output.** The output is an in-memory tree of directories and files, plus an
  event log (`Output.Fs`).
- **Halts.** A C `err`/`errx` is a `Stop(Fatal)`. A C loop that never ends is a
  `Stop(Diverges)`: a zero-length attribute header or list entry, or an
  attribute-list chain.
- **Fuel.** Recursion the C code does not bound is cut off by a `fuel`
  parameter, with the halt `Stop(OutOfFuel)`. This covers parent directories,
  attribute lists and extended partitions.

## Model

| member | source | states |
|---|---|---|
| Usuals.Wrap32 | src/drive.h:39-42 | a 32-bit field stores its value reduced modulo 2^32, and small values are stored unchanged |
| Usuals.IntersectsIffOverlap | src/usuals.h:50-51 | for non-empty ranges, INTERSECTS holds exactly when the larger start lies below the smaller end |
| Usuals.IntersectsSymmetric | src/usuals.h:50-51 | INTERSECTS does not depend on the order of the two ranges |
| Usuals.TouchingRangesDoNotIntersect | src/usuals.h:50-51 | half-open ranges that only touch do not intersect |
| Usuals.DwordsRebuild | src/usuals.h:46-47 | the high and low dwords put back together give the original 64-bit value |
| Drive.ClusterToSector | src/drive.h:87 | cluster c begins at sector c·cluster + first, and never before the partition start, when that sum fits in 64 bits |
| Drive.ClusterToSectorStep | src/drive.h:87 | consecutive clusters begin one cluster's worth of sectors apart |
| Drive.SectorToBytes | src/drive.h:25 | a sector's byte position is 512 times its number |
| Drive.ClusterSize | src/drive.h:89 | a cluster is `cluster`·512 bytes: between 512 and 64 KiB for a geometry the command line accepts |
| Drive.ReadSectors | src/list.c:41-51 | a read at a sector succeeds exactly when its position can be reached by a signed 64-bit seek and the whole length lies within the device; it returns exactly those bytes |
| Drive.InvalidSectorUnreadable | src/drive.h:27-31 | the sentinel sector 2^64−1 can never be read |
| Drive.PartEntryAt | src/drive.h:58-72 | partition entry i is the 16 bytes at 0x1BE + 16·i; its type is byte 4, its start sector the little-endian dword at 8 and its end sector the dword at 12 |
| Drive.PartEntryRoundTrip | src/drive.h:58-72 | an entry stored as its 16 on-disk bytes in slot i reads back with the same type, start and end, whatever the rest of the sector holds |
| Drive.MbrLayout | src/drive.h:76-83 | the four entries end where the 0xAA55 signature begins, and the record is exactly one 512-byte sector |
| Layout.BootSectorLayout | src/ntfs.h:37-57 | the packed boot-sector fields put the system id at 3, sectors per cluster at 0x0D and the MFT cluster at 0x30 |
| Layout.RecordHeaderLayout | src/ntfs.h:72-89 | the packed record header puts offUpdSeq at 4, cwUpdSeq at 6, offAttrs at 0x14 and flags at 0x16, and is 0x30 bytes long |
| Layout.AttributeLayout | src/ntfs.h:96-132 | the common attribute header is 16 bytes; the resident form adds data length at 0x10 and data offset at 0x14; the non-resident form adds the run offset at 0x20 and the three sizes at 0x28, 0x30 and 0x38 |
| Layout.FileNameLayout | src/ntfs.h:165-180 | the file-name payload keeps its times at 8, 0x18 and 0x20, flags at 0x38, name length at 0x40 and namespace at 0x41, and has a 0x42-byte fixed part |
| Layout.ListEntryLayout | src/ntfs.h:182-193 | an attribute-list entry keeps its record length at 4 and its base reference at 0x10 |
| Layout.MagicIsFileText | src/ntfs.h:59 | the record magic 'ELIF' is the bytes "FILE" on disk |
| Layout.RefIndex | src/ntfs.h:66-70 | a file reference's record index is its low 48 bits |
| Layout.FnUnits | src/ntfs.h:165-180 | the stored name has exactly as many UTF-16 units as the length byte says |
| Ntfs.Search | src/ntfs.c:27-47 | a match is a live header of the requested type at or after the start; a start that is not a live header finds nothing |
| Ntfs.SearchFindsFirstMatch | src/ntfs.c:27-47 | the walk returns the first header of the requested type in the chain of headers linked by their lengths, and reports a loop when a zero length is reached first |
| Ntfs.FirstOfTypeSpec | src/ntfs.c:27-47 | the reference walk finds a header exactly when some header in the chain has the type, and then it finds the first one |
| Ntfs.NextAttribute | src/ntfs.c:64-67 | with skip set, a header of non-zero length is never returned again: only a later one; a zero-length header either matches itself or loops |
| Ntfs.GetAttributeData | src/ntfs.c:69-76 | the resident data is missing exactly when its offset points past the end, and otherwise it starts at that offset |
| Ntfs.BetterNamespaceIsRank | src/ntfs.c:78-98 | for the four defined codes, a candidate displaces the current name exactly when the current one is POSIX or the candidate ranks higher (WIN32 > WIN32+DOS > DOS); a WIN32 name is never displaced |
| Ntfs.BetterNamespaceUnknownCodes | src/ntfs.c:78-98 | a current name with an undefined code is never displaced, and a POSIX one always is |
| Ntfs.FixupCount | src/ntfs.c:109-113 | the number of sectors checked is min(size/512, cwUpdSeq−1), and 255 when cwUpdSeq is 0 |
| Ntfs.FirstMismatchSpec | src/ntfs.c:117-127 | the first mismatching sector is preceded only by sectors whose last word equals update-sequence word 0 |
| Ntfs.FixupStep | src/ntfs.c:117-127 | one sector: on a match its last two bytes become the next array word and the loop goes on; on a mismatch the loop fails with the buffer as it stands |
| Ntfs.FixupOutcome | src/ntfs.c:117-127 | from any sector on, the loop succeeds exactly when no later sector mismatches, and it has patched every sector before the first mismatch |
| Ntfs.DoFixups | src/ntfs.c:100-131 | for any record, the length is kept and only the footer bytes of the checked sectors can change; with no sector to check the record passes unchanged |
| Ntfs.DoFixupsSpec | src/ntfs.c:100-131 | for a record whose update sequence array shares no byte with the checked footers (`ArrayClearOfFooters`), the fixup check succeeds exactly when every checked sector ends with word 0; on success each sector i ends with word i+1 and nothing else changes; on failure the sectors before the mismatch are already patched |
| DataRuns.Next | src/ntfsx.c:63-112 | decoding fails exactly on a zero header, a length width of 0 or over 8, or an offset width over 8; otherwise the cursor advances by 1 + length width + offset width and the length fits in its width |
| DataRuns.Apply | src/ntfsx.c:101-109 | an offset of 0 makes a sparse run and keeps the cluster; any other offset is added to the previous cluster modulo 2^64 |
| DataRuns.NextOfEncoded | src/ntfsx.c:63-112 | a run written in the on-disk form decodes to its length and its signed offset, and the cursor lands just after it |
| DataRuns.RunsOfEncodeRuns | src/ntfsx.c:54-112 | a list of runs written one after another and ended by a zero byte decodes back to exactly those runs, with clusters accumulated |
| DataRuns.AllRunsOfEncodeRuns | src/ntfsx.c:54-61 | decoding from the first run of an encoded run list gives the expected cursors: the round trip of the whole list |
| DataRuns.SignBitOfTwosComplement | src/ntfsx.c:90-96 | the top bit of the last offset byte is set exactly when the offset is negative, so sign extension from it recovers the offset |
| DataRuns.NextAsWritten | src/ntfsx.c:63-112 | as written, decoding fails on the same headers as the intended decoder and advances by the same amount; a run without offset bytes is sparse exactly when the last length byte is below 0x80 |
| DataRuns.Runs | src/ntfsx.c:408-438 | the walk is empty exactly when the first header does not decode, and otherwise starts with the decoded first run |
| DataRuns.AllRuns | src/ntfsx.c:54-61 | the walk from the first header is empty exactly when `ntfsx_datarun_first` fails, and otherwise starts with its run |
| DataRuns.RunsAreChain | src/ntfsx.c:408-438 | each run of the walk is the decoder's step from the run before it, and no run decodes after the last one |
| DataRuns.RunsAsWrittenAgree | src/ntfsx.c:90-98 | on a run list with no zero-width offset after a length whose last byte is 0x80 or more, the walk as written yields exactly the runs of the intended walk |
| DataRuns.SparseListMisread | src/ntfsx.c:90-98 | the list 01 80 00 walks to one sparse run as intended, but as written to one data run a cluster back |
| DataRuns.NextAsWrittenAgrees | src/ntfsx.c:90-98 | the decoder as written agrees with the intended one except for a zero-width offset after a length whose last byte has its top bit set |
| DataRuns.SparseRunMisread | src/ntfsx.c:90-98 | the run 01 80 is sparse, but as written its missing offset is read as −1, so it reads as a data run at the previous cluster minus one |
| MftMap.Length | src/ntfsx.c:454-463 | the map's length is the sum of its block lengths, in 64-bit arithmetic |
| MftMap.Place | src/ntfsx.c:479-488 | a record of a block sits at the block's first sector plus two sectors per record, and is invalid when that lies at or past the end of the partition |
| MftMap.SectorForIndex | src/ntfsx.c:465-492 | any sector returned other than the sentinel lies inside the partition |
| MftMap.SectorForIndexInBlock | src/ntfsx.c:465-492 | an index inside block k is placed by block k at its offset within that block |
| MftMap.SectorForIndexBeyond | src/ntfsx.c:465-492 | an index at or past the total length gives the invalid sector |
| MftMap.FromRuns | src/ntfsx.c:404-438 | the blocks built are non-empty, start inside the partition, and are no more than the runs |
| MftMap.FromRunsFailsIffSparse | src/ntfsx.c:407-413 | loading fails exactly when some run is sparse |
| MftMap.FromRunsKeepsRuns | src/ntfsx.c:424-436 | there is one block per kept run, in order, with firstSector = cluster·clusterSize + first and length = run length × records per cluster |
| MftMap.KeptRuns | src/ntfsx.c:426-432 | a run is kept only when its block is non-empty and starts before the end of the partition |
| Records.RecordRead | src/ntfsx.c:257-275 | reading is fatal exactly when the cluster cannot be read; a record is accepted exactly when it carries the magic and its fixups succeed, and then it is the fixed-up cluster |
| Records.RecordReadInvalidSector | src/ntfsx.c:135-161 | reading the sentinel sector always ends the program |
| Records.FindInRecord | src/ntfsx.c:282-340 | an attribute in the record itself always wins; the attribute list is consulted only when there is none; whatever is returned is a live attribute of the requested type |
| Records.ListSearch | src/ntfsx.c:307-336 | the list walk returns only live attributes of the requested type, read from whole clusters, and finds nothing once past the list's end |
| Records.FollowEntry | src/ntfsx.c:316-331 | following an entry finds only live attributes of the requested type in another record |
| Records.NoMapInlineOnly | src/ntfsx.c:293-307 | without an MFT map only the record itself is searched |
| Records.EmptyMapEntryIsFatal | src/scrounge.c:431-440 | while the map is still empty, following any list entry reads the sentinel sector and ends the program |
| Records.AttributeNext | src/ntfsx.c:225-236 | the next attribute comes from the same buffer, of the requested type, later when the current header has a non-zero length; a header that is not live has no next one |
| Records.LoadMap | src/ntfsx.c:368-452 | a map loaded from the $MFT record has non-empty blocks that start inside the partition; the load is fatal exactly when the lookup of $DATA is |
| Records.LoadMapOfInline | src/ntfsx.c:384-438 | with a non-resident $DATA in the record itself, the map is built from the runs that the walk from its run list yields |
| Records.LoadMapInline | src/ntfsx.c:384-438 | with a non-resident $DATA in the record itself, the map is built from its runs, and exactly when none of them is sparse |
| Locks.FirstIntersecting | src/misc.c:54-62 | the entry found is the first one that intersects the new range; when none is found, no entry intersects it |
| Locks.AddLock | src/misc.c:38-68 | when full the capacity grows by 0x400 and storage survives only if allocation succeeds; otherwise capacity and storage are kept; the set stays well formed |
| Locks.AddLockShape | src/misc.c:51-66 | an intersecting range widens only the first entry it meets, to [min beg, max end), and changes nothing else; otherwise exactly one entry is appended |
| Locks.AddLockCoverage | src/misc.c:38-68 | after an insertion that takes effect, a sector is locked exactly when it was locked before or lies in the new range |
| Locks.LostStorageStaysLost | src/misc.c:42-51 | once the storage is gone, insertions change nothing and no sector is locked |
| Locks.FailedGrowthDropsLocks | src/misc.c:42-51 | a failed growth loses every lock |
| Locks.TouchingRangesStaySeparate | src/misc.c:56 | [10,20) and then [20,30) stay two entries |
| Locks.WideningCanOverlap | src/misc.c:54-61 | widening the first intersecting entry can make it overlap a later one, so entries are not kept disjoint |
| Locks.CheckLock | src/misc.c:70-89 | the check reports a lock exactly when some entry covers the sector |
| RefCount.RefAlloc | src/misc.c:130-142 | a new block starts with count 1 at an address not in use; a failed allocation changes nothing |
| RefCount.RefAdd | src/misc.c:159-166 | adding a reference raises the count by one and returns the same pointer; a null pointer stays null |
| RefCount.RefRelease | src/misc.c:183-193 | releasing lowers the count by one and frees the block exactly when the count reaches 0 |
| RefCount.AddTimesCount | src/misc.c:159-166 | n additions raise the count by n and touch no other block |
| RefCount.ReleaseTimesFrees | src/misc.c:183-193 | n releases lower the count by n and free the block exactly when they use up its count |
| RefCount.AllocAddReleaseBalance | src/misc.c:130-193 | after an allocation and n additions, the block is still live after k releases exactly when k ≤ n, and other blocks are untouched |
| DriveLocks.IntersectRangeAsWritten | src/drive.cpp:59-76 | the merge claims the new range exactly when the ranges intersect, the stored one is strictly inside it, or they are equal; an unclaimed range is unchanged |
| DriveLocks.NestedRangeShrinks | src/drive.cpp:64-65 | as written, adding [10,20) to a stored [0,100) shrinks it to [0,20), unlocking sector 50 |
| DriveLocks.EnclosingRangeDropped | src/drive.cpp:68-69 | as written, adding [0,100) over a stored [10,20) is claimed with no change, so sector 50 is never locked |
| DriveLocks.IntersectRange | src/drive.cpp:59-76 | the corrected merge claims exactly the same cases as the code, and an unclaimed range is unchanged |
| DriveLocks.IntersectRangeCovers | src/drive.cpp:59-76 | a claimed merge covers exactly the sectors of the stored range and the new range |
| DriveLocks.MergeAllAsWritten | src/drive.cpp:90-100 | every entry is replaced by its merge as written, and the new range is claimed exactly when some entry claims it |
| DriveLocks.MergeAll | src/drive.cpp:90-100 | every entry is replaced by its corrected merge, and the range is claimed exactly when some entry claims it |
| DriveLocks.AddLocationLockAsWritten | src/drive.cpp:78-109 | when some entry claims the range, every entry is replaced by its merge as written, so a stored range can lose its tail or an enclosing range be dropped; otherwise exactly the new range is appended |
| DriveLocks.AddLocationLockLosesSectors | src/drive.cpp:78-109 | as written, adding [10,20) to the list [[0,100)] unlocks sector 50 |
| DriveLocks.AddLocationLock | src/drive.cpp:78-109 | when some entry claims the range, every entry is replaced by its corrected merge, the hull of the two ranges for a claiming entry; otherwise exactly the new range is appended |
| DriveLocks.AddLocationLockCoverage | src/drive.cpp:78-109 | with the corrected merge, a sector is locked afterwards exactly when it was locked before or lies in the new range |
| DriveLocks.CheckLocationLock | src/drive.cpp:111-125 | a sector is reported locked exactly when some entry covers it; then the caller's sector moves to the end of the first covering entry, which lies beyond it, and otherwise it is unchanged |
| Unicode.EncodeUnit | src/unicode.c:41-59 | a unit becomes 1, 2 or 3 bytes by its size; one below 0x80 is itself; longer forms start with a lead byte ≥ 0xC0 followed by continuation bytes 10xxxxxx |
| Unicode.Encode | src/unicode.c:39-60 | the encoding of n units takes between n and 3n bytes, and exactly n when every unit is below 0x80 |
| Unicode.EncodeAppend | src/unicode.c:39-60 | the output of the loop is the concatenation of the encodings of the units, in order |
| Unicode.AllocAsWritten | src/unicode.c:22-38 | the write position after the loop is the length of the encoding, and the buffer can only leave bounds, never come back |
| Unicode.OneWideUnitOverflows | src/unicode.c:33-38 | a single unit ≥ 0x800 needs four bytes with the NUL, but the buffer as written holds three |
| Unicode.Transcode16To8 | src/unicode.c:14-64 | the transcoded text is the concatenated UTF-8 forms of the units followed by a NUL, and it fits the buffer allocated with the corrected growth |
| Unicode.DecodeOne | src/unicode.c:89-135 | each decoding step consumes between 1 and 4 bytes, never more than remain |
| Unicode.Decode | src/unicode.c:72-140 | the decoder emits at most one unit per input byte |
| Unicode.MasksAreTopBits | src/unicode.c:89-126 | each lead- or continuation-byte mask test is a test of the byte's top bits |
| Unicode.DecodeOneOfEncodeUnit | src/unicode.c:41-59 | the first form decoded from an encoded unit is that unit, and exactly its bytes are consumed |
| Unicode.DecodeEncode | src/unicode.c:14-140 | decoding the UTF-8 form of any sequence of 16-bit units gives the units back |
| Compat.TruncMod | src/compat.c:318-319 | C's `%` is the remainder of truncating division: a = b·q + m with \|m\| < b, and equal to Dafny's `%` for non-negative a |
| Compat.NegativeItowLosesSign | src/compat.c:312-321 | as written, itow(−5, 10) yields "+" where "-5" is intended |
| Compat.Unsigned | src/compat.c:316-334 | the text of a non-negative number is non-empty and made of digits of the radix |
| Compat.ValueOfUnsigned | src/compat.c:316-334 | reading the digits back gives the number |
| Compat.ItowDecimalRoundTrip | src/compat.c:309-343 | the corrected decimal text reads back as the value, with a leading '-' exactly for negatives |
| Compat.ReverseDigitsLsb | src/compat.c:316-334 | reversing the least-significant-first digits gives the most-significant-first text |
| Compat.ItowAsWritten | src/compat.c:302-343 | as written the text is never empty, and for a non-zero value it has exactly one character per digit, which leaves no room for the sign of a negative decimal value |
| Compat.Itow | src/compat.c:302-343 | the corrected text is non-empty, starts with '-' exactly for a negative decimal value, and is otherwise made of digits of the radix |
| Compat.ItowReadsBack | src/compat.c:302-343 | in every radix the corrected text reads back as the value: a negative decimal value after its '-', a negative value in another radix as its 32-bit two's complement |
| Compat.ItowAgreesOnNonNegative | src/compat.c:302-343 | for values ≥ 0, itow as written gives the correct text, "0" for zero included |
| Compat.LastIndex | src/compat.c:38-43 | strrchr finds the last occurrence of the character, or reports that there is none |
| Compat.BaseStart | src/compat.c:38-41 | the base name starts just after the last '\' or '/', or at the start when there is none |
| Compat.ProgName | src/compat.c:34-53 | the program name is the base name up to the path's last '.' when that dot lies after the first character of the base name, else up to the end of the path, and in both cases at most 255 characters |
| Compat.ProgNamePlain | src/compat.c:34-53 | a short base name without a later dot is kept whole |
| Compat.FixProgName | src/compat.c:34-53 | once set, the program name is never recomputed |
| Compat.FixProgNameOnce | src/compat.c:34-53 | a second call keeps the name from the first path |
| Posix.MakeTvsAsWritten | src/posix.c:46-69 | before the Unix epoch the time is zero; otherwise usec < 10^6, and sec·10^9 + usec·1000 is within 1000 of ft |
| Posix.MakeTvsAsWrittenMonotone | src/posix.c:64-68 | later file times never give earlier seconds |
| Posix.EpochIsNotZero | src/posix.c:64-68 | as written the Unix epoch converts to 116444736 s, where 0 is intended |
| Posix.MakeTvs | src/posix.c:46-69 | the corrected conversion subtracts the epoch and counts 100 ns units: usec < 10^6, and the seconds and microseconds rebuild the time up to the dropped tenth of a microsecond |
| Posix.FileTime | src/posix.c:46-69 | the file time of a timeval counts 100 ns ticks from 1601: the seconds and microseconds can be read back from the ticks after the Unix epoch, and a non-negative timeval lies at or after the epoch |
| Posix.MakeTvsOfFileTime | src/posix.c:64-68 | the corrected conversion inverts the timeval-to-file-time map |
| Posix.MakeTvsMonotone | src/posix.c:64-68 | with the correction, later file times never give earlier seconds |
| Listing.NtfsInfo | src/list.c:34-59 | reading the boot sector fails only when the device cannot supply it, and that is fatal; a partition is reported exactly when its system id is "NTFS    ", with its sectors per cluster and, as its MFT sector, the 64-bit MFT cluster times the sectors per cluster modulo 2^64 |
| Listing.NtfsInfoOfBoot | src/list.c:34-59 | a boot sector holding the NTFS id, a sectors-per-cluster byte and an MFT cluster is reported with exactly those values |
| Listing.ListPartitions | src/list.c:61-100 | an unreadable table is fatal, a table without the 0xAA55 signature lists nothing, and the listing halts only on a fatal read or at the nesting bound |
| Listing.Entries | src/list.c:82-97 | the entries halt only on a fatal read or at the nesting bound, and the rest of a table whose entries all have type 0 lists nothing |
| Listing.FlatEntries | src/list.c:84-95 | without extended entries, the lines are the non-empty entries in table order with bounds tbl+start and tbl+end in 32 bits, and the only halt is a fatal read |
| Listing.FlatTable | src/list.c:82-97 | a signed table without extended entries lists exactly its non-empty entries; an unsigned one lists nothing |
| Listing.SelfLinkedTableNeverFinishes | src/list.c:86-90 | an extended entry that points back at its own table recurses until the fuel runs out, whatever the fuel |
| Basics.CutAtNul | src/scrounge.c:84-104 | the text kept is the prefix before the first NUL |
| Basics.NameFromUnits | src/scrounge.c:84-104 | the stored name is at most MAX_PATH bytes, holds no NUL, and is a prefix of the UTF-8 form of the units |
| Basics.NameOfPlainUnits | src/scrounge.c:84-104 | a name without NUL units that fits is stored whole, and decoding it gives the units back |
| Basics.InfoAt | src/scrounge.c:80-116 | the fields come from the chosen payload: the times as stored, the name within MAX_PATH, and the parent as a 48-bit record index that is never the sentinel |
| Basics.NameChain | src/scrounge.c:63-119 | the FILENAME attributes visited start with the one found, all lie in the same buffer, and go strictly forward |
| Basics.Choose | src/scrounge.c:60-119 | the loop keeps an attribute it has visited, and one after the start when it started from POSIX |
| Basics.FirstWith | src/scrounge.c:60-119 | the first attribute with a namespace code, or none when no attribute has it |
| Basics.PreferredStep | src/scrounge.c:60-119 | one more attribute becomes the preferred one exactly when the namespace ranking lets it displace the current choice |
| Basics.ChooseIsPreferred | src/scrounge.c:60-119 | for the four defined codes the loop keeps the first WIN32 name, else the first WIN32+DOS, else the first DOS, else the last POSIX |
| Basics.FileBasics | src/scrounge.c:37-125 | without a FILENAME attribute the name is empty and the parent is the sentinel, and only then; a failed lookup ends the record |
| Basics.FileBasicsPrefers | src/scrounge.c:37-125 | with known namespace codes the fields come from the preferred FILENAME attribute |
| Basics.FileBasicsFuelFree | src/scrounge.c:37-125 | a FILENAME attribute in the record itself is found whatever the fuel, and its parent is a real index |
| Copy.ZeroChunks | src/scrounge.c:290-306 | a sparse run writes only zeros; the bytes written plus the bytes left equal the size; and bytes are left over only when the run was used up or at least a whole cluster of zeros was written |
| Copy.ReadChunks | src/scrounge.c:320-332 | every chunk written is a prefix of the run's clusters on disk, the bytes written plus the bytes left equal the size, the whole run is written when bytes remain, and a failed read is fatal |
| Copy.ReadChunksAsWritten | src/scrounge.c:320-332 | the bytes written plus the bytes left still equal the size |
| Copy.AsWrittenAgreesBelow4GiB | src/scrounge.c:322 | below 4 GiB the 32-bit cast changes nothing: the copy as written equals the intended one |
| Copy.FourGiBFileWritesNothing | src/scrounge.c:322 | as written a 4 GiB file writes no bytes from its first cluster, while the intended copy writes the whole cluster |
| Copy.LockRun | src/scrounge.c:312-318 | before a data run is copied, its sectors [CLUSTER_TO_SECTOR(c), CLUSTER_TO_SECTOR(c+length)) are added to the lock set, and no locked sector is lost |
| Copy.CopyRuns | src/scrounge.c:279-336 | a copy never writes more than the attribute's size, locks only grow, a failed read is fatal, and it stops at a non-empty run only when nothing is left to write |
| Copy.CopyStep | src/scrounge.c:279-336 | a finished copy is the first run's copy followed by the copy of the rest from what was left |
| Copy.CopyLocksDataRuns | src/scrounge.c:312-318 | after a copy through every run, every sector of each non-sparse run is locked |
| Output.ChDir | src/scrounge.c:199 | changing directory succeeds exactly when the directory exists |
| Output.MkDir | src/scrounge.c:201 | making a directory succeeds exactly when nothing of that name exists |
| Output.Create | src/scrounge.c:217 | an exclusive create succeeds exactly when nothing of that name exists, and makes an empty file |
| Output.Append | src/scrounge.c:261 | a write adds the data to the end of the file and changes nothing else |
| Scrounge.EnterDirectory | src/scrounge.c:196-213 | a directory record enters the directory of its name, creating it first if needed; only a clash with a file leaves the directory unchanged, with a warning |
| Scrounge.DecimalBytes | src/scrounge.c:233 | the count is written as one or more decimal digits |
| Scrounge.Candidate | src/scrounge.c:230-233 | each numbered name begins with the original name and is longer than it |
| Scrounge.RenameLoop | src/scrounge.c:222-237 | a name the loop settles on was free and is created; when none is found the only change is a warning |
| Scrounge.OpenUnique | src/scrounge.c:217-243 | a free name is opened as it is; a taken one gets a numbered name; the file made is new and empty; a failure only warns |
| Scrounge.RenameLoopFirstFree | src/scrounge.c:222-237 | the numbered name taken is the first free one: every earlier candidate was taken |
| Scrounge.OpenUniqueFirstFree | src/scrounge.c:217-243 | a duplicate gets the first free numbered name |
| Scrounge.LongDuplicateAbandoned | src/scrounge.c:224-228 | a taken name with no room for a dot and six characters is given up at once with a warning |
| Scrounge.CandidatesDiffer | src/scrounge.c:230-234 | distinct tries use distinct names |
| Scrounge.ProcessRecord | src/scrounge.c:127-213 | every record processed leaves a well-formed output that has only grown |
| Scrounge.ProcessNamed | src/scrounge.c:169-176 | an empty name only warns, and a record named "." changes nothing |
| Scrounge.Parent | src/scrounge.c:178-191 | the parent is processed only with an MFT map and a real parent index; an index the map cannot place only warns |
| Scrounge.NamelessRecordOnlyWarns | src/scrounge.c:167-172 | a record in use without any FILENAME attribute produces one warning and nothing else |
| Scrounge.ProcessRecordNamed | src/scrounge.c:157-176 | a record that reads, is in use and has a name goes on to the named part |
| Scrounge.ParentRecurses | src/scrounge.c:184-189 | a parent index that resolves is processed as a record with one unit less of fuel |
| Scrounge.NamedAfterParent | src/scrounge.c:178-213 | a named record fails when its parent does, and its own effects come on top of the parent's |
| Scrounge.ParentFirst | src/scrounge.c:178-191 | when the parent index resolves, the record's effects extend those of processing the parent record |
| Scrounge.SelfParentNeverFinishes | src/scrounge.c:178-191 | there is no cycle check: a record whose parent leads back to its own sector never finishes, whatever the fuel |
| Scrounge.WriteFile | src/scrounge.c:217-248 | writing a file record leaves a well-formed output that has only grown; a record without $DATA warns |
| Scrounge.WriteFileOpened | src/scrounge.c:246-256 | a file opened under its own name gets the record's $DATA attribute written to it |
| Scrounge.WriteData | src/scrounge.c:252-340 | writing data ends the program only on a fatal read, and otherwise leaves a well-formed, grown output |
| Scrounge.WriteRuns | src/scrounge.c:264-340 | the non-resident copy writes only to the open file: no directory or file is made, and every other file keeps its contents |
| Scrounge.AppendWarned | src/scrounge.c:279-340 | the copied data goes to the end of the file, followed by a warning for an extra run and one for missing data |
| Scrounge.WriteDataFrame | src/scrounge.c:252-340 | writing data touches only the open file |
| Scrounge.ResidentDataAppends | src/scrounge.c:253-261 | a resident value is appended to the file as it stands, and the locks are not touched |
| Scrounge.ResidentFileContents | src/scrounge.c:217-261 | a new file with a resident $DATA attribute holds exactly the attribute's value |
| Scrounge.MftSector | src/scrounge.c:376 | the expected sector of the MFT is the configured MFT offset plus the partition start, in 32-bit arithmetic: the sum, less 2^32 when it reaches 2^32 |
| Scrounge.ScroungeMft | src/scrounge.c:368-413 | the map is returned exactly when the $MFT record at its expected sector is accepted (in use, named "$MFT", with a map of at least one record); a sector past the partition is fatal |
| Scrounge.IndexSectors | src/scrounge.c:443-451 | the sectors visited lie inside the partition, at most one for each index from 1 on |
| Scrounge.ProcessAndReturn | src/scrounge.c:452-456 | each record is processed and the scan returns to its directory |
| Scrounge.ScanMft | src/scrounge.c:441-457 | the loop visits the sectors of indices 1..length−1 in order, leaving out those the map cannot place, and ends in its starting directory |
| Scrounge.UsingMft | src/scrounge.c:416-460 | a failed MFT check ends the program; otherwise every placeable record index after the first is processed in order, starting from and returning to the starting directory |
| Scrounge.RawVisit | src/scrounge.c:487-504 | an unreadable sector is fatal; a sector is processed exactly when it starts with the record magic |
| Scrounge.RawVisitedMagic | src/scrounge.c:482-505 | below the scan position, every sector not skipped was visited exactly when it starts with the record magic |
| Scrounge.RawSkipStep | src/scrounge.c:482-485 | a locked sector is skipped and the scan moves on by one sector |
| Scrounge.RawVisitStep | src/scrounge.c:487-501 | an unlocked sector is visited exactly when it starts with the magic |
| Scrounge.RawStep | src/scrounge.c:482-505 | a sector locked when the scan reaches it is skipped with nothing else changed, and an unlocked one is never skipped; the scan's record of visited and skipped sectors is kept, and the locks only grow and stay healthy |
| Scrounge.SkippedAsReachedStep | src/scrounge.c:482-486 | recording the lock set held at a sector, and skipping the sector exactly when that set covers it, keeps the record of which sectors were skipped |
| Scrounge.UsingRaw | src/scrounge.c:462-508 | the scan records the lock set it held on reaching each sector of the partition: these start empty and only grow; a sector is skipped exactly when its recorded lock set covers it, and every other sector is visited exactly when it starts with the record magic; visits come in increasing order and return to the starting directory |

## Left out

- Device and file I/O are abstractions: the device is a byte image, and the output is an in-memory tree with an event log. Partial writes, write errors and `close` are not modelled.
- `printf` output of the recovery driver and of the listing is not modelled. The listing is returned as a sequence of lines.
- `setFileTime` and `setFileAttributes` (src/posix.c) and all of src/win32.c are operating-system calls and are not modelled. `ntfs_maketvs`, which `setFileTime` uses, is.
- Argument parsing in src/main.c and `getopt` are not modelled. A cluster size of 1..128 and first < end enter only as the `ValidGeometry` predicate.
- `scroungeList`/`scroungeListDrive` (drive enumeration) and src/search.c (unimplemented) are not modelled.
- Unbounded recursion is cut off by fuel. This covers the parent-first recursion, attribute lists that refer to further records, and extended partitions; running out of fuel is a `Stop(OutOfFuel)` halt. The C code instead recurses until the stack overflows.
- Reads outside a buffer, undefined behaviour in C, read as 0. A fixup footer outside the buffer counts as a mismatch, where the C code would write out of bounds.
- Scrounge.WriteData: the resident path does not model the warning that the C code may print from an uninitialised `fileSize` at src/scrounge.c:339.
- Allocation failure is modelled only for the lock-set storage of src/misc.c (`allocOk`). The recovery driver always passes success. Other `malloc` failures, which end the program, are not modelled.
- DriveLocks.AddLocationLock: the `realloc` growth at src/drive.cpp:80-88 is not modelled; the list is an unbounded sequence.
- Unicode.Decode: the four-byte form is decoded to its full code point. The truncation to a 16-bit `wchar_t` on platforms where it is 16 bits is not modelled.
- Posix.MakeTvsAsWritten: the 32-bit clamp branch at src/posix.c:56 is dead, because `sizeof` counts bytes, and is left out.
- The raw scan advances one sector past a locked sector. `checkLocationLock` in src/misc.c takes the sector by value, so the skip-to-end-of-lock of the older src/drive.cpp variant does not apply.
- The second definition of `itow` at src/compat.c:347 is the same digit loop and is not modelled separately.
- Attribute lookup prefers an attribute in the record itself over the attribute list, as the code does. The namespace ranking is WIN32 > WIN32+DOS > DOS > POSIX, as the code has it.
- The early-exit macros of src/usuals.h:40-44 are not modelled one by one. Each function's early exits are its `Stop` outcomes, or its failing result.
- Records.LoadMap: decodes the MFT's runs with the corrected `DataRuns.Next`, not the decoder as written. On a run list with a zero-width offset after a length whose last byte is 0x80 or more (such as the run 01 80), the C code reads a data run one cluster back where the model reads a sparse run and fails the load. On every other list the two walks agree (`DataRuns.RunsAsWrittenAgree`).
- Records.LoadMapInline: states the load for the corrected decoder, so on a run list such as 01 80 it describes the intended result, not the code's. See the `Records.LoadMap` line.
- Scrounge.ScroungeMft: inherits the corrected run decoder from `Records.LoadMap`. On a run list such as 01 80 the C code accepts a map the model rejects.
- Scrounge.UsingMft: inherits the corrected run decoder from `Records.LoadMap`. See the `Scrounge.ScroungeMft` line.
- Copy.CopyRuns: reads each run with the corrected `Copy.ReadChunks`, not the chunk size as written. The two agree whenever the bytes left are below 4 GiB (`Copy.AsWrittenAgreesBelow4GiB`). At 4 GiB or more left, the C code truncates the size to 32 bits (a file of exactly 4 GiB writes nothing, `Copy.FourGiBFileWritesNothing`), and the model writes the data. It also walks the runs with the corrected decoder, as in the `Records.LoadMap` line.
- Scrounge.WriteRuns: inherits both corrections from `Copy.CopyRuns`: the run decoder (inputs such as 01 80) and the chunk size (4 GiB or more left). It also inherits the unbounded cluster counter, described in the `Copy.ZeroChunks` and `Copy.ReadChunksAsWritten` lines.
- Copy.ZeroChunks: counts clusters with an unbounded number. The C loop counter `i` is a `uint32` (src/scrounge.c:144), compared with the 64-bit run length (src/scrounge.c:295). On a sparse run of 2^32 clusters or more, the C loop never ends on the count and writes zeros until the size is used up. The model stops after the run's length.
- Copy.ReadChunksAsWritten: counts clusters with an unbounded number, where src/scrounge.c:144 and :320 use a `uint32` counter. This matters on runs of more than 2^32 clusters. At step 2^32 the C counter wraps to 0 and re-reads the run's first cluster, where the model reads cluster + 2^32. When `(uint32)fileSize` is 0 on such a run, the C loop never ends, where the model stops after the run's length.
- Copy.CopyRuns: inherits the unbounded cluster counter through `Copy.ZeroChunks` and `Copy.ReadChunks`. So on runs of 2^32 clusters or more it differs from the C code as those two lines describe.
- Records.FollowEntry: when an attribute-list entry names a record with a bad magic or failed fixups, src/ntfsx.c:269 prints "invalid mft record" and the lookup goes on (src/ntfsx.c:325-331). The model goes on the same way but does not log that warning. So the output log lacks one warning per rejected nested record.
- Records.ListSearch: drops the same warnings, through `Records.FollowEntry`.
- Basics.NameFromUnits: passes the name to the transcoder as 16-bit units, as the callers declare it (`ntfs_char` is 16 bits, src/ntfs.h:28 and :206). The transcoder itself is defined over `wchar_t` (src/unicode.c:14). Where `wchar_t` is 32 bits, as on the POSIX builds that use it (src/scrounge.c:90-102), the C code reads two name units per character and reads past the end of the name. The model follows the evidently intended 16-bit reading. That the decoder's output `wchar_t` holds a full code point (the `Unicode.Decode` line) is the same 32-bit `wchar_t`; only this input side reads it as 16 bits.
- Ntfs.DoFixupsSpec: proved only for records whose update sequence array shares no byte with the checked sector footers. When the array overlaps a footer, a patch can rewrite a word that a later step reads; `Ntfs.DoFixups` still computes that step-by-step result, but only its frame property is proved for it.

## Findings

| source | as written | input that shows it | evidently intended | confidence | as-written member | corrected member |
|---|---|---|---|---|---|---|
| src/ntfsx.c:90-98 | the offset's sign is taken from the byte before the offset, which for an offset width of 0 is the last length byte | run 01 80: length 0x80 and no offset | a run without offset bytes is sparse (offset 0) | not executed | DataRuns.NextAsWritten (DataRuns.SparseRunMisread, DataRuns.SparseListMisread) | DataRuns.Next (DataRuns.AllRunsOfEncodeRuns, DataRuns.RunsAsWrittenAgree) |
| src/drive.cpp:64-65 | `e1 = e2` replaces the stored end | stored [0,100), add [10,20): the result is [0,20) | the end becomes the larger of the two | not executed | DriveLocks.IntersectRangeAsWritten (DriveLocks.NestedRangeShrinks, DriveLocks.AddLocationLockLosesSectors) | DriveLocks.IntersectRange (DriveLocks.IntersectRangeCovers, DriveLocks.AddLocationLockCoverage) |
| src/drive.cpp:68-69 | a stored range strictly inside the new one claims it without change | stored [10,20), add [0,100) | the stored range grows to the new one | not executed | DriveLocks.IntersectRangeAsWritten (DriveLocks.EnclosingRangeDropped) | DriveLocks.IntersectRange (DriveLocks.IntersectRangeCovers) |
| src/unicode.c:33-38 | the buffer of len + len/4 + 1 bytes grows only when pos + 4 ≥ alloc, by len/2 + 1 | one unit 0x0800: 3 bytes are allocated, 4 are written with the NUL | every unit and the final NUL fit | not executed | Unicode.AllocAsWritten (Unicode.OneWideUnitOverflows) | Unicode.Transcode16To8 |
| src/compat.c:312-321 | the '-' is written at the position the digits later overwrite, and the digits come from negative remainders | itow(−5, 10) | "-5" | not executed | Compat.ItowAsWritten (Compat.NegativeItowLosesSign) | Compat.Itow (Compat.ItowDecimalRoundTrip) |
| src/posix.c:64-68 | the file time is divided by 10^9 and the epoch is never subtracted | ft = 116444736000000000, the Unix epoch | tv = (0, 0), with 100 ns units and the epoch subtracted | not executed | Posix.MakeTvsAsWritten (Posix.EpochIsNotZero) | Posix.MakeTvs (Posix.MakeTvsOfFileTime) |
| src/scrounge.c:322 | `min(cluster.size, (uint32)fileSize)` truncates the size left to 32 bits | a 4 GiB file of one cluster: (uint32)2^32 is 0, so nothing is written | the chunk is min(cluster size, size left) | not executed | Copy.ReadChunksAsWritten (Copy.FourGiBFileWritesNothing) | Copy.ReadChunks (Copy.AsWrittenAgreesBelow4GiB) |
