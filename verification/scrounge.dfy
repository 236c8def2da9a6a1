/**
 * The recovery driver (src/scrounge.c): processMFTRecord and the two
 * scans that call it, one over the MFT's record indices and one over every
 * sector of the partition.
 */
module Scrounge {
  import opened Usuals
  import opened Bytes
  import opened Layout
  import opened Drive
  import opened Records
  import opened Output
  import opened Basics
  import opened Ntfs
  import Compat
  import MftMap
  import DataRuns
  import Locks
  import Copy

  /** "." */
  const Dot: Name := [0x2E]
  /** "$MFT" in the narrow character set. */
  const MftNameBytes: Name := [0x24, 0x4D, 0x46, 0x54]
  /** How many numbered names are tried for a duplicate. */
  const RenameTries: nat := 0x1000

  /** What processMFTRecord changes: the output and, during a raw scan, the lock set. */
  datatype State = State(fs: Fs, locks: Option<Locks.LockSet>)

  /** The relation every step of the recovery keeps between the state before and after it. */
  ghost predicate Progress(a: State, b: State)
  {
    Grows(a.fs, b.fs) && Copy.LocksGrow(a.locks, b.locks)
  }

  lemma ProgressTransitive(a: State, b: State, c: State)
    requires Progress(a, b) && Progress(b, c)
    ensures Progress(a, c)
  {
    GrowsTransitive(a.fs, b.fs, c.fs);
    Copy.LocksGrowTransitive(a.locks, b.locks, c.locks);
  }

  // Directories

  /**
   * A directory record: enter the directory of that name, creating it
   * first if it does not exist; if neither works, warn and stay.
   */
  function EnterDirectory(fs: Fs, name: Name): (r: Fs)
    requires Valid(fs)
    ensures Valid(r) && Grows(fs, r) && r.files == fs.files
    ensures r.cwd == fs.cwd + [name] <==> fs.cwd + [name] !in fs.files
    ensures r.cwd != fs.cwd + [name] ==> r == Warn(fs, NoDirectory)
    ensures r.cwd == fs.cwd + [name] ==> r.cwd in r.dirs
  {
    match ChDir(fs, name)
    case (true, fs1) => fs1
    case (false, _) =>
      match MkDir(fs, name)
      case (false, _) => Warn(fs, NoDirectory)
      case (true, fs2) => ChDir(fs2, name).1
  }

  // Duplicate names

  /** The decimal digits of `n` in the narrow character set. */
  function DecimalBytes(n: nat): (d: seq<byte>)
    requires n <= Compat.INT32_MAX
    ensures |d| >= 1
    ensures forall k :: 0 <= k < |d| ==> 0x30 <= d[k] <= 0x39
  {
    var s := Compat.Itow(n, 10);
    seq(|s|, k requires 0 <= k < |s| => (s[k] as int) as byte)
  }

  /** The k-th name tried for a duplicate: the original, a dot and k in decimal. */
  function Candidate(orig: Name, k: nat): (c: Name)
    requires k < RenameTries
    ensures |c| > |orig| && c[..|orig|] == orig
  {
    orig + Dot + DecimalBytes(k)
  }

  /**
   * The renaming loop: try the next numbered name while the name tried last
   * leaves room for a dot and six more characters, at most 0x1000 times.
   */
  function RenameLoop(fs: Fs, orig: Name, cur: Name, k: nat): (r: (Fs, Option<Name>))
    requires k <= RenameTries
    decreases RenameTries - k
    ensures r.1.Some? ==> !Exists(fs, fs.cwd + [r.1.value])
    ensures r.1.Some? ==> r.0 == Create(fs, r.1.value).1 && |r.1.value| > |orig|
    ensures r.1.None? ==> r.0 == Warn(fs, CannotOpen) || r.0 == Warn(fs, NameTooLong)
  {
    if k >= RenameTries then (Warn(fs, CannotOpen), None)
    else if |cur| + 7 >= MaxPath then (Warn(fs, NameTooLong), None)
    else
      var cand := Candidate(orig, k);
      match Create(fs, cand)
      case (true, fs1) => (fs1, Some(cand))
      case (false, _) => RenameLoop(fs, orig, cand, k + 1)
  }

  /**
   * Open the output file exclusively under `name`; when the name is taken,
   * number it. The file made is new and empty; when none could be made the
   * only change is a warning.
   */
  function OpenUnique(fs: Fs, name: Name): (r: (Fs, Option<Name>))
    ensures r.1.Some? ==> !Exists(fs, fs.cwd + [r.1.value]) && r.0 == Create(fs, r.1.value).1
    ensures r.1 == Some(name) <==> !Exists(fs, fs.cwd + [name])
    ensures r.1.None? ==> r.0 == Warn(fs, CannotOpen) || r.0 == Warn(fs, NameTooLong)
    ensures r.1.Some? ==> r.0.cwd == fs.cwd && fs.cwd + [r.1.value] in r.0.files
    ensures Valid(fs) ==> Valid(r.0) && Grows(fs, r.0)
  {
    match Create(fs, name)
    case (true, fs1) => (fs1, Some(name))
    case (false, _) => RenameLoop(fs, name, name, 0)
  }

  /**
   * The loop takes the first free candidate from `k` on: every candidate
   * tried before the one created was taken.
   */
  lemma {:induction false} RenameLoopFirstFree(fs: Fs, orig: Name, cur: Name, k: nat)
    requires k <= RenameTries
    decreases RenameTries - k
    ensures var r := RenameLoop(fs, orig, cur, k);
            r.1.Some? ==>
              exists j :: (k <= j < RenameTries && r.1.value == Candidate(orig, j) &&
                           forall i :: k <= i < j ==> Exists(fs, fs.cwd + [Candidate(orig, i)]))
  {
    var r := RenameLoop(fs, orig, cur, k);
    if k < RenameTries && |cur| + 7 < MaxPath && r.1.Some? {
      var cand := Candidate(orig, k);
      if Exists(fs, fs.cwd + [cand]) {
        assert r == RenameLoop(fs, orig, cand, k + 1);
        RenameLoopFirstFree(fs, orig, cand, k + 1);
        var j :| k + 1 <= j < RenameTries && r.1.value == Candidate(orig, j) &&
                 forall i :: k + 1 <= i < j ==> Exists(fs, fs.cwd + [Candidate(orig, i)]);
        assert forall i :: k <= i < j ==> Exists(fs, fs.cwd + [Candidate(orig, i)]);
      } else {
        assert r.1.value == Candidate(orig, k);
      }
    }
  }

  /**
   * A duplicate gets the first free numbered name: every numbered name
   * before the one created was taken.
   */
  lemma OpenUniqueFirstFree(fs: Fs, name: Name)
    ensures var r := OpenUnique(fs, name);
            r.1.Some? && r.1.value != name ==>
              exists j :: (0 <= j < RenameTries && r.1.value == Candidate(name, j) &&
                           forall i :: 0 <= i < j ==> Exists(fs, fs.cwd + [Candidate(name, i)]))
  {
    RenameLoopFirstFree(fs, name, name, 0);
  }

  /** A taken name with no room for a number is given up at once. */
  lemma LongDuplicateAbandoned(fs: Fs, name: Name)
    requires Exists(fs, fs.cwd + [name]) && |name| + 7 >= MaxPath
    ensures OpenUnique(fs, name) == (Warn(fs, NameTooLong), None)
  {
  }

  /** Equal candidates carry equal digit strings. */
  lemma SameCandidateSameDigits(orig: Name, j: nat, k: nat)
    requires j < RenameTries && k < RenameTries
    requires Candidate(orig, j) == Candidate(orig, k)
    ensures Compat.Itow(j, 10) == Compat.Itow(k, 10)
  {
    var dj, dk := Compat.Itow(j, 10), Compat.Itow(k, 10);
    var n := |orig| + 1;
    assert DecimalBytes(j) == Candidate(orig, j)[n..];
    assert DecimalBytes(k) == Candidate(orig, k)[n..];
    forall i | 0 <= i < |dj|
      ensures dj[i] == dk[i]
    {
      assert DecimalBytes(j)[i] == DecimalBytes(k)[i];
    }
  }

  /** The digits read back as the number, so distinct tries use distinct names. */
  lemma CandidatesDiffer(orig: Name, j: nat, k: nat)
    requires j < k < RenameTries
    ensures Candidate(orig, j) != Candidate(orig, k)
  {
    Compat.ValueOfUnsigned(j, 10);
    Compat.ValueOfUnsigned(k, 10);
    if Candidate(orig, j) == Candidate(orig, k) {
      SameCandidateSameDigits(orig, j, k);
      assert false;
    }
  }

  // Records

  /**
   * processMFTRecord. A record that fails validation only warns; one not in
   * use, or named ".", is skipped; one without a name warns. Otherwise its
   * parent is processed first (entering the parent's directory), then the
   * record becomes a directory or a file. There is no cycle check: the
   * recursion is bounded by `fuel`, which also bounds attribute-list lookups.
   */
  function ProcessRecord(vol: Volume, st: State, sector: uint64, fuel: nat): (r: Outcome<State>)
    requires Valid(st.fs)
    decreases fuel, 2
    ensures r.Done? ==> Valid(r.value.fs) && Progress(st, r.value)
  {
    match RecordRead(vol, sector)
    case Stop(h) => Stop(h)
    case Done(None) => Done(st.(fs := Warn(st.fs, InvalidRecord)))
    case Done(Some(rec)) =>
      if !InUse(rec) then Done(st)
      else
        match FileBasics(vol, rec, fuel)
        case Stop(h) => Stop(h)
        case Done(info) => ProcessNamed(vol, st, rec, info, fuel)
  }

  /** The part of processMFTRecord after the name is known. */
  function ProcessNamed(vol: Volume, st: State, rec: seq<byte>, info: Info, fuel: nat): (r: Outcome<State>)
    requires Valid(st.fs)
    decreases fuel, 1
    ensures info.name == [] ==> r == Done(st.(fs := Warn(st.fs, NoFileName)))
    ensures info.name == Dot ==> r == Done(st)
    ensures r.Done? ==> Valid(r.value.fs) && Progress(st, r.value)
  {
    if info.name == [] then Done(st.(fs := Warn(st.fs, NoFileName)))
    else if info.name == Dot then Done(st)
    else
      match Parent(vol, st, info, fuel)
      case Stop(h) => Stop(h)
      case Done(st1) =>
        if IsDirectory(rec) then
          var st2 := st1.(fs := EnterDirectory(st1.fs, info.name));
          ProgressTransitive(st, st1, st2);
          Done(st2)
        else
          match WriteFile(vol, st1, rec, info.name, fuel)
          case Stop(h) => Stop(h)
          case Done(st2) => ProgressTransitive(st, st1, st2); Done(st2)
  }

  /** The parent directory, processed first when an MFT map is installed and resolves it. */
  function Parent(vol: Volume, st: State, info: Info, fuel: nat): (r: Outcome<State>)
    requires Valid(st.fs)
    decreases fuel, 0
    ensures info.parent == InvalidSector || vol.mft.None? ==> r == Done(st)
    ensures r.Done? ==> Valid(r.value.fs) && Progress(st, r.value)
  {
    if info.parent == InvalidSector || vol.mft.None? then Done(st)
    else
      var ps := MftMap.SectorForIndex(vol.pi, vol.mft.value, info.parent);
      if ps == InvalidSector then Done(st.(fs := Warn(st.fs, BadParent)))
      else if fuel == 0 then Stop(OutOfFuel)
      else ProcessRecord(vol, st, ps, fuel - 1)
  }

  /**
   * A file record: open the output file, then write its DATA attribute. A
   * record without one leaves the file empty and warns.
   */
  function WriteFile(vol: Volume, st: State, rec: seq<byte>, name: Name, fuel: nat): (r: Outcome<State>)
    requires Valid(st.fs)
    ensures r.Done? ==> Valid(r.value.fs) && Progress(st, r.value)
  {
    match OpenUnique(st.fs, name)
    case (fs1, None) => Done(st.(fs := fs1))
    case (fs1, Some(file)) =>
      match FindInRecord(vol, rec, Data, fuel)
      case Stop(h) => Stop(h)
      case Done(None) => Done(st.(fs := Warn(fs1, NoData)))
      case Done(Some(a)) =>
        var st1 := st.(fs := fs1);
        match WriteData(vol, st1, fs1.cwd + [file], a)
        case Stop(h) => Stop(h)
        case Done(st2) => ProgressTransitive(st, st1, st2); Done(st2)
  }

  /**
   * Write one DATA attribute to the open file `path`: a resident value as it
   * stands, a non-resident one run by run, warning when the runs overran the
   * recorded size or fell short of it.
   */
  function WriteData(vol: Volume, st: State, path: Path, a: Attr): (r: Outcome<State>)
    requires Valid(st.fs) && path in st.fs.files
    ensures r.Stop? ==> r.halt == Fatal
    ensures r.Done? ==> Valid(r.value.fs) && Progress(st, r.value)
  {
    if AttrNonResident(a.buf, a.at) == 0 then
      Done(st.(fs := Append(st.fs, path, Slice(a.buf, Payload(a), ResDataLength(a.buf, a.at)))))
    else WriteRuns(vol, st, path, a)
  }

  /** The non-resident case: copy the runs, then append what they gave. */
  function WriteRuns(vol: Volume, st: State, path: Path, a: Attr): (r: Outcome<State>)
    requires Valid(st.fs) && path in st.fs.files
    ensures r.Stop? ==> r.halt == Fatal
    ensures r.Done? ==> Valid(r.value.fs) && Progress(st, r.value)
    ensures r.Done? ==> r.value.fs.dirs == st.fs.dirs && r.value.fs.cwd == st.fs.cwd &&
                        r.value.fs.files.Keys == st.fs.files.Keys &&
                        forall q :: q in st.fs.files && q != path ==> r.value.fs.files[q] == st.fs.files[q]
  {
    var runs := DataRuns.AllRuns(a.buf, a.at + NonResRunsOffset(a.buf, a.at));
    match Copy.CopyRuns(vol, runs, NonResDataSize(a.buf, a.at), st.locks)
    case Stop(h) => Stop(h)
    case Done(c) => Done(State(AppendWarned(st.fs, path, c.data, c.extra, c.rem != 0), c.locks))
  }

  /**
   * The copied data goes to the end of the file; then a warning when the
   * runs overran the recorded size, and one when they fell short of it.
   */
  function AppendWarned(fs: Fs, path: Path, data: seq<byte>, extra: bool, short: bool): (r: Fs)
    requires Valid(fs) && path in fs.files
    ensures Valid(r) && Grows(fs, r)
    ensures r.files == fs.files[path := fs.files[path] + data]
    ensures r.dirs == fs.dirs && r.cwd == fs.cwd
    ensures r.log == fs.log + (if extra then [Warned(ExtraRun)] else []) + (if short then [Warned(MissingData)] else [])
  {
    var fs2 := Append(fs, path, data);
    var fs3 := if extra then Warn(fs2, ExtraRun) else fs2;
    var fs4 := if short then Warn(fs3, MissingData) else fs3;
    GrowsTransitive(fs, fs2, fs3);
    GrowsTransitive(fs, fs3, fs4);
    fs4
  }

  /** A record in use without any FILENAME attribute produces one warning and nothing else. */
  lemma NamelessRecordOnlyWarns(vol: Volume, st: State, sector: uint64, rec: seq<byte>, fuel: nat)
    requires Valid(st.fs)
    requires RecordRead(vol, sector) == Done(Some(rec)) && InUse(rec)
    requires FindInRecord(vol, rec, FileName, fuel) == Done(None)
    ensures ProcessRecord(vol, st, sector, fuel) == Done(st.(fs := Warn(st.fs, NoFileName)))
  {
  }

  /** A record that reads, is in use and has its name fields goes on to the named part. */
  lemma ProcessRecordNamed(vol: Volume, st: State, sector: uint64, rec: seq<byte>, info: Info, fuel: nat)
    requires Valid(st.fs)
    requires RecordRead(vol, sector) == Done(Some(rec)) && InUse(rec) && FileBasics(vol, rec, fuel) == Done(info)
    ensures ProcessRecord(vol, st, sector, fuel) == ProcessNamed(vol, st, rec, info, fuel)
  {
  }

  /** A parent index that resolves, with fuel left, is processed with one unit less. */
  lemma ParentRecurses(vol: Volume, st: State, info: Info, fuel: nat)
    requires Valid(st.fs) && fuel > 0
    requires vol.mft.Some? && info.parent != InvalidSector
    requires MftMap.SectorForIndex(vol.pi, vol.mft.value, info.parent) != InvalidSector
    ensures Parent(vol, st, info, fuel) == ProcessRecord(vol, st, MftMap.SectorForIndex(vol.pi, vol.mft.value, info.parent), fuel - 1)
  {
  }

  /** A named record finishes only after its parent did, and its own effects come on top. */
  lemma NamedAfterParent(vol: Volume, st: State, rec: seq<byte>, info: Info, fuel: nat)
    requires Valid(st.fs) && info.name != [] && info.name != Dot
    ensures var r := ProcessNamed(vol, st, rec, info, fuel);
            var p := Parent(vol, st, info, fuel);
            (p.Stop? ==> r == p) && (r.Done? ==> p.Done? && Progress(p.value, r.value))
  {
    var p := Parent(vol, st, info, fuel);
    if p.Done? && IsDirectory(rec) {
      var st2 := p.value.(fs := EnterDirectory(p.value.fs, info.name));
      assert ProcessNamed(vol, st, rec, info, fuel) == Done(st2);
    }
  }

  /**
   * The parent comes first: when the record's parent index resolves, the
   * record's own effects extend those of processing the parent record.
   */
  lemma ParentFirst(vol: Volume, st: State, sector: uint64, rec: seq<byte>, info: Info, fuel: nat)
    requires Valid(st.fs) && fuel > 0
    requires RecordRead(vol, sector) == Done(Some(rec)) && InUse(rec)
    requires FileBasics(vol, rec, fuel) == Done(info) && info.name != [] && info.name != Dot
    requires vol.mft.Some? && info.parent != InvalidSector
    requires MftMap.SectorForIndex(vol.pi, vol.mft.value, info.parent) != InvalidSector
    ensures var r := ProcessRecord(vol, st, sector, fuel);
            var p := ProcessRecord(vol, st, MftMap.SectorForIndex(vol.pi, vol.mft.value, info.parent), fuel - 1);
            r.Done? ==> p.Done? && Progress(p.value, r.value)
  {
    ProcessRecordNamed(vol, st, sector, rec, info, fuel);
    ParentRecurses(vol, st, info, fuel);
    NamedAfterParent(vol, st, rec, info, fuel);
  }

  /** A record whose parent step ran out of fuel runs out of fuel itself. */
  lemma SelfParentStep(vol: Volume, st: State, sector: uint64, rec: seq<byte>, info: Info, fuel: nat)
    requires Valid(st.fs)
    requires RecordRead(vol, sector) == Done(Some(rec)) && InUse(rec)
    requires FindAttribute(rec, FileName).Found? && FileBasics(vol, rec, 0) == Done(info)
    requires info.name != [] && info.name != Dot
    requires Parent(vol, st, info, fuel) == Stop(OutOfFuel)
    ensures ProcessRecord(vol, st, sector, fuel) == Stop(OutOfFuel)
  {
    FileBasicsFuelFree(vol, rec, fuel, 0);
    ProcessRecordNamed(vol, st, sector, rec, info, fuel);
    NamedAfterParent(vol, st, rec, info, fuel);
  }

  /**
   * There is no cycle check: a record whose parent index leads back to its
   * own sector recurses until the fuel runs out, whatever the fuel.
   */
  lemma SelfParentNeverFinishes(vol: Volume, st: State, sector: uint64, rec: seq<byte>, info: Info, fuel: nat)
    requires Valid(st.fs)
    requires RecordRead(vol, sector) == Done(Some(rec)) && InUse(rec)
    requires FindAttribute(rec, FileName).Found? && FileBasics(vol, rec, 0) == Done(info)
    requires info.name != [] && info.name != Dot
    requires vol.mft.Some? && MftMap.SectorForIndex(vol.pi, vol.mft.value, info.parent) == sector
    ensures ProcessRecord(vol, st, sector, fuel) == Stop(OutOfFuel)
  {
    RecordReadInvalidSector(vol);
    FileBasicsFuelFree(vol, rec, 0, 0);
    var f: nat := 0;
    while f < fuel
      invariant f <= fuel
      invariant Parent(vol, st, info, f) == Stop(OutOfFuel)
    {
      SelfParentStep(vol, st, sector, rec, info, f);
      ParentRecurses(vol, st, info, f + 1);
      f := f + 1;
    }
    SelfParentStep(vol, st, sector, rec, info, fuel);
  }

  /**
   * Writing data touches only the open file: no directory is made or
   * entered, no file is created, and every other file keeps its contents.
   */
  lemma WriteDataFrame(vol: Volume, st: State, path: Path, a: Attr)
    requires Valid(st.fs) && path in st.fs.files
    ensures var r := WriteData(vol, st, path, a);
            r.Done? ==> r.value.fs.dirs == st.fs.dirs && r.value.fs.cwd == st.fs.cwd &&
                        r.value.fs.files.Keys == st.fs.files.Keys &&
                        forall q :: q in st.fs.files && q != path ==> r.value.fs.files[q] == st.fs.files[q]
  {
    if AttrNonResident(a.buf, a.at) == 0 {
      ResidentDataAppends(vol, st, path, a);
    }
  }

  /** A resident value is appended to the file as it stands; the locks are not touched. */
  lemma ResidentDataAppends(vol: Volume, st: State, path: Path, a: Attr)
    requires Valid(st.fs) && path in st.fs.files && AttrNonResident(a.buf, a.at) == 0
    ensures WriteData(vol, st, path, a) == Done(st.(fs := Append(st.fs, path, Slice(a.buf, Payload(a), ResDataLength(a.buf, a.at)))))
  {
  }

  /** A file opened under its own name gets the record's DATA attribute written to it. */
  lemma WriteFileOpened(vol: Volume, st: State, rec: seq<byte>, name: Name, fuel: nat, a: Attr)
    requires Valid(st.fs) && !Exists(st.fs, st.fs.cwd + [name])
    requires FindInRecord(vol, rec, Data, fuel) == Done(Some(a))
    ensures WriteFile(vol, st, rec, name, fuel) == WriteData(vol, st.(fs := Create(st.fs, name).1), st.fs.cwd + [name], a)
  {
  }

  /** A new file with a resident DATA attribute holds exactly the attribute's value. */
  lemma ResidentFileContents(vol: Volume, st: State, rec: seq<byte>, name: Name, fuel: nat, a: Attr)
    requires Valid(st.fs) && !Exists(st.fs, st.fs.cwd + [name])
    requires FindInRecord(vol, rec, Data, fuel) == Done(Some(a)) && AttrNonResident(a.buf, a.at) == 0
    ensures var r := WriteFile(vol, st, rec, name, fuel);
            r.Done? && r.value.locks == st.locks && r.value.fs.dirs == st.fs.dirs &&
            r.value.fs.files == st.fs.files[st.fs.cwd + [name] := Slice(a.buf, Payload(a), ResDataLength(a.buf, a.at))]
  {
    var fs1 := Create(st.fs, name).1;
    WriteFileOpened(vol, st, rec, name, fuel, a);
    ResidentDataAppends(vol, st.(fs := fs1), st.fs.cwd + [name], a);
    CreateThenAppend(st.fs, name, Slice(a.buf, Payload(a), ResDataLength(a.buf, a.at)));
  }

  /** Data appended to a file just created is all the file holds. */
  lemma CreateThenAppend(fs: Fs, name: Name, data: seq<byte>)
    requires Valid(fs) && !Exists(fs, fs.cwd + [name])
    ensures var fs1 := Create(fs, name).1;
            fs.cwd + [name] in fs1.files &&
            Append(fs1, fs.cwd + [name], data).files == fs.files[fs.cwd + [name] := data] &&
            Append(fs1, fs.cwd + [name], data).dirs == fs.dirs
  {
    var p := fs.cwd + [name];
    assert Create(fs, name).1.files[p] == [];
    assert [] + data == data;
  }

  // The MFT

  /** Where the $MFT record should be: its 32-bit offset plus the 32-bit partition start, summed in 32 bits. */
  function MftSector(pi: PartitionInfo): (s: uint64)
    ensures s < U32_LIMIT
    ensures pi.mft + pi.first < U32_LIMIT ==> s == pi.mft + pi.first
    ensures pi.mft + pi.first >= U32_LIMIT ==> s == pi.mft + pi.first - U32_LIMIT
  {
    Wrap32(pi.mft + pi.first)
  }

  /** The volume while the map is being loaded: an empty map is already installed. */
  function Loading(pi: PartitionInfo, dev: Device): Volume
  {
    Volume(pi, dev, Some([]))
  }

  /** The $MFT record is accepted: in use, named "$MFT", with a loadable map of at least one record. */
  ghost predicate MftAccepted(pi: PartitionInfo, dev: Device, fuel: nat, bs: seq<MftMap.Block>)
  {
    var vol := Loading(pi, dev);
    var rr := RecordRead(vol, MftSector(pi));
    MftSector(pi) < pi.end && rr.Done? && rr.value.Some? && InUse(rr.value.value) &&
    FileBasics(vol, rr.value.value, fuel).Done? && FileBasics(vol, rr.value.value, fuel).value.name == MftNameBytes &&
    LoadMap(vol, rr.value.value, fuel) == Done(Some(bs)) && Wrap64(MftMap.Total(bs)) != 0
  }

  /**
   * scroungeMFT: check that the $MFT record is where the partition says and
   * load the MFT map from it; every failure ends the program.
   */
  function ScroungeMft(pi: PartitionInfo, dev: Device, fuel: nat): (r: Outcome<seq<MftMap.Block>>)
    ensures r.Done? ==> MftAccepted(pi, dev, fuel, r.value)
    ensures (exists bs :: MftAccepted(pi, dev, fuel, bs)) ==> r.Done?
    ensures MftSector(pi) >= pi.end ==> r == Stop(Fatal)
    ensures r.Done? ==> forall k :: 0 <= k < |r.value| ==> r.value[k].length > 0 && r.value[k].firstSector < pi.end
  {
    var vol := Loading(pi, dev);
    var sector := MftSector(pi);
    if sector >= pi.end then Stop(Fatal)
    else
      match RecordRead(vol, sector)
      case Stop(h) => Stop(h)
      case Done(None) => Stop(Fatal)
      case Done(Some(rec)) =>
        if !InUse(rec) then Stop(Fatal)
        else
          match FileBasics(vol, rec, fuel)
          case Stop(h) => Stop(h)
          case Done(info) =>
            if info.name != MftNameBytes then Stop(Fatal)
            else
              match LoadMap(vol, rec, fuel)
              case Stop(h) => Stop(h)
              case Done(None) => Stop(Fatal)
              case Done(Some(bs)) => if Wrap64(MftMap.Total(bs)) == 0 then Stop(Fatal) else Done(bs)
  }

  /** The sectors of MFT records 1 .. hi-1 in index order, leaving out indices the map cannot place. */
  function IndexSectors(pi: PartitionInfo, bs: seq<MftMap.Block>, hi: nat): (ss: seq<uint64>)
    requires hi <= U64_LIMIT
    ensures |ss| < hi || hi == 0
    ensures forall k :: 0 <= k < |ss| ==> ss[k] < pi.end
  {
    if hi <= 1 then []
    else
      var s := MftMap.SectorForIndex(pi, bs, hi - 1);
      IndexSectors(pi, bs, hi - 1) + (if s == InvalidSector then [] else [s])
  }

  /**
   * One call of processMFTRecord from a scan, followed by the return to the
   * scan's directory `dir`.
   */
  method ProcessAndReturn(vol: Volume, st: State, sector: uint64, fuel: nat, dir: Path) returns (o: Outcome<State>)
    requires Valid(st.fs) && dir in st.fs.dirs
    ensures o.Done? ==> Valid(o.value.fs) && Progress(st, o.value) && o.value.fs.cwd == dir
  {
    var p := ProcessRecord(vol, st, sector, fuel);
    if p.Stop? {
      return Stop(p.halt);
    }
    var st1 := p.value.(fs := Output.Return(p.value.fs, dir));
    ProgressTransitive(st, p.value, st1);
    return Done(st1);
  }

  /**
   * The loop of scroungeUsingMFT over a loaded map `bs` of `len` records:
   * every record after the first ($MFT itself), in index order; an index the
   * map cannot place is warned about and passed over.
   */
  method ScanMft(pi: PartitionInfo, dev: Device, bs: seq<MftMap.Block>, len: uint64, fs: Fs, fuel: nat)
    returns (r: Outcome<Fs>, visited: seq<uint64>)
    requires Valid(fs)
    ensures r.Done? ==> visited == IndexSectors(pi, bs, len)
    ensures r.Done? ==> Valid(r.value) && Grows(fs, r.value) && r.value.cwd == fs.cwd
  {
    var vol := Volume(pi, dev, Some(bs));
    var dir := fs.cwd;
    var st := State(fs, None);
    visited := [];
    var i: uint64 := 1;
    while i < len
      invariant 1 <= i && (i <= len || (len == 0 && i == 1))
      invariant Valid(st.fs) && Grows(fs, st.fs) && st.fs.cwd == dir && dir in st.fs.dirs
      invariant visited == IndexSectors(pi, bs, i)
    {
      var s := MftMap.SectorForIndex(pi, bs, i);
      if s == InvalidSector {
        st := st.(fs := Warn(st.fs, BadMftIndex(i)));
      } else {
        var o := ProcessAndReturn(vol, st, s, fuel, dir);
        if o.Stop? {
          return Stop(o.halt), visited;
        }
        GrowsTransitive(fs, st.fs, o.value.fs);
        st := o.value;
        visited := visited + [s];
      }
      i := i + 1;
    }
    return Done(st.fs), visited;
  }

  /**
   * scroungeUsingMFT: check and load the MFT, then run the loop over its
   * records, returning to the starting directory after each. `visited` lists
   * the sectors processed.
   */
  method UsingMft(pi: PartitionInfo, dev: Device, fs: Fs, fuel: nat) returns (r: Outcome<Fs>, visited: seq<uint64>)
    requires Valid(fs)
    ensures ScroungeMft(pi, dev, fuel).Stop? ==> r == Stop(ScroungeMft(pi, dev, fuel).halt)
    ensures r.Done? ==> ScroungeMft(pi, dev, fuel).Done?
    ensures r.Done? ==>
              var bs := ScroungeMft(pi, dev, fuel).value;
              visited == IndexSectors(pi, bs, Wrap64(MftMap.Total(bs)))
    ensures r.Done? ==> Valid(r.value) && Grows(fs, r.value) && r.value.cwd == fs.cwd
  {
    var m := ScroungeMft(pi, dev, fuel);
    if m.Stop? {
      return Stop(m.halt), [];
    }
    var len := MftMap.Length(m.value);
    r, visited := ScanMft(pi, dev, m.value, len, fs, fuel);
  }

  // The raw scan

  /** The sector reads and starts with the MFT record magic. */
  predicate HasMagic(dev: Device, s: uint64)
  {
    var b := ReadSectors(dev, s, SectorSize);
    b.Some? && U32At(b.value, 0) == RecMagic
  }

  /**
   * One unlocked sector of the raw scan: read it (a failed read ends the
   * program), process it when it starts with the record magic, and return
   * to the scan's directory. The flag says whether it was processed.
   */
  method RawVisit(vol: Volume, st: State, sec: uint64, fuel: nat, dir: Path) returns (o: Outcome<(State, bool)>)
    requires Valid(st.fs) && dir in st.fs.dirs
    ensures ReadSectors(vol.dev, sec, SectorSize).None? ==> o == Stop(Fatal)
    ensures o.Done? ==> Valid(o.value.0.fs) && Progress(st, o.value.0) && o.value.0.fs.cwd == dir
    ensures o.Done? ==> (o.value.1 <==> HasMagic(vol.dev, sec))
  {
    var buf := ReadSectors(vol.dev, sec, SectorSize);
    if buf.None? {
      return Stop(Fatal);
    }
    if U32At(buf.value, 0) == RecMagic {
      var p := ProcessAndReturn(vol, st, sec, fuel, dir);
      if p.Stop? {
        return Stop(p.halt);
      }
      return Done((p.value, true));
    }
    return Done((st.(fs := Output.Return(st.fs, dir)), false));
  }

  /** The sectors of the partition that start with the record magic. */
  ghost function MagicSectors(pi: PartitionInfo, dev: Device): set<uint64>
  {
    set s: uint64 | pi.first <= s < pi.end && HasMagic(dev, s)
  }

  /**
   * What the raw scan has established about the sectors before `sec`: each
   * was either skipped or visited exactly when it is one of `magic`, and
   * the visits came in sector order.
   */
  ghost predicate RawVisited(pi: PartitionInfo, magic: set<uint64>, sec: int, visited: seq<uint64>, skipped: seq<uint64>)
  {
    (forall k :: 0 <= k < |visited| ==> pi.first <= visited[k] < sec && visited[k] !in skipped) &&
    (forall s: uint64 :: pi.first <= s < sec && s !in skipped ==> (s in visited <==> s in magic)) &&
    (forall j, k :: 0 <= j < k < |visited| ==> visited[j] < visited[k])
  }

  /** Read back over the partition's sectors, the record speaks of the magic itself. */
  lemma RawVisitedMagic(pi: PartitionInfo, dev: Device, sec: int, visited: seq<uint64>, skipped: seq<uint64>)
    requires RawVisited(pi, MagicSectors(pi, dev), sec, visited, skipped)
    ensures forall s: uint64 :: pi.first <= s < sec && s < pi.end && s !in skipped ==> (s in visited <==> HasMagic(dev, s))
  {
  }

  /** Every skipped sector lies before `sec` and is locked. */
  ghost predicate RawSkipped(pi: PartitionInfo, sec: int, skipped: seq<uint64>, ls: Locks.LockSet)
  {
    forall k :: 0 <= k < |skipped| ==> pi.first <= skipped[k] < sec && Locks.Locked(ls, skipped[k])
  }

  /** Skipping a locked sector keeps the scan's record. */
  lemma RawSkipStep(pi: PartitionInfo, magic: set<uint64>, sec: uint64, visited: seq<uint64>, skipped: seq<uint64>, ls: Locks.LockSet)
    requires pi.first <= sec && Locks.Locked(ls, sec)
    requires RawVisited(pi, magic, sec, visited, skipped) && RawSkipped(pi, sec, skipped, ls)
    ensures RawVisited(pi, magic, sec + 1, visited, skipped + [sec]) && RawSkipped(pi, sec + 1, skipped + [sec], ls)
  {
    var sk := skipped + [sec];
    assert forall k :: 0 <= k < |skipped| ==> sk[k] == skipped[k];
    assert forall s :: s in sk <==> s in skipped || s == sec;
  }

  /** Visiting an unlocked sector keeps the scan's record. */
  lemma RawVisitStep(pi: PartitionInfo, magic: set<uint64>, sec: uint64, visited: seq<uint64>, skipped: seq<uint64>, found: bool)
    requires pi.first <= sec && RawVisited(pi, magic, sec, visited, skipped)
    requires forall k :: 0 <= k < |skipped| ==> skipped[k] < sec
    requires found <==> sec in magic
    ensures RawVisited(pi, magic, sec + 1, if found then visited + [sec] else visited, skipped)
  {
    var v := if found then visited + [sec] else visited;
    assert sec !in visited;
    assert sec !in skipped;
    assert forall k :: 0 <= k < |visited| ==> v[k] == visited[k];
    assert found ==> v[|visited|] == sec;
    assert forall s :: s in v <==> s in visited || (found && s == sec);
  }

  /** Locks that only grow keep every skipped sector locked, and a visit moves `sec` on. */
  lemma RawSkippedGrow(pi: PartitionInfo, sec: uint64, skipped: seq<uint64>, ls: Locks.LockSet, ls': Locks.LockSet)
    requires RawSkipped(pi, sec, skipped, ls)
    requires Copy.LocksGrow(Some(ls), Some(ls')) && Copy.Healthy(ls)
    ensures RawSkipped(pi, sec + 1, skipped, ls')
  {
  }

  /**
   * `seen[k]` is the lock set the scan held when it reached sector
   * first + k, and a sector before `sec` was skipped exactly when that lock
   * set covered it.
   */
  ghost predicate SkippedAsReached(pi: PartitionInfo, sec: int, skipped: seq<uint64>, seen: seq<Locks.LockSet>)
  {
    pi.first + |seen| == sec &&
    forall s: uint64 :: pi.first <= s < sec ==> (s in skipped <==> Locks.Locked(seen[s - pi.first], s))
  }

  /** Recording the lock set at `sec` and skipping `sec` exactly when it is locked keeps the record. */
  lemma SkippedAsReachedStep(pi: PartitionInfo, sec: uint64, skipped: seq<uint64>, seen: seq<Locks.LockSet>, ls: Locks.LockSet)
    requires SkippedAsReached(pi, sec, skipped, seen)
    requires forall k :: 0 <= k < |skipped| ==> skipped[k] < sec
    ensures var skipped' := if Locks.Locked(ls, sec) then skipped + [sec] else skipped;
            SkippedAsReached(pi, sec + 1, skipped', seen + [ls])
  {
    var seen' := seen + [ls];
    assert sec !in skipped;
    assert forall k :: 0 <= k < |seen| ==> seen'[k] == seen[k];
    assert seen'[sec - pi.first] == ls;
  }

  /** One sector of the raw scan: skip it when locked, otherwise visit it. */
  method RawStep(vol: Volume, st: State, sec: uint64, fuel: nat, dir: Path, visited: seq<uint64>, skipped: seq<uint64>)
    returns (o: Outcome<State>, visited': seq<uint64>, skipped': seq<uint64>)
    requires Valid(st.fs) && st.fs.cwd == dir && dir in st.fs.dirs && vol.pi.first <= sec < vol.pi.end
    requires st.locks.Some? && Copy.Healthy(st.locks.value)
    requires RawVisited(vol.pi, MagicSectors(vol.pi, vol.dev), sec, visited, skipped)
    requires RawSkipped(vol.pi, sec, skipped, st.locks.value)
    ensures o.Done? ==> Valid(o.value.fs) && Grows(st.fs, o.value.fs) && o.value.fs.cwd == dir && dir in o.value.fs.dirs
    ensures o.Done? ==> o.value.locks.Some? && Copy.Healthy(o.value.locks.value)
    ensures o.Done? ==> RawVisited(vol.pi, MagicSectors(vol.pi, vol.dev), sec + 1, visited', skipped')
    ensures o.Done? ==> RawSkipped(vol.pi, sec + 1, skipped', o.value.locks.value)
    ensures o.Done? ==> Copy.LocksGrow(st.locks, o.value.locks)
    ensures o.Done? && Locks.Locked(st.locks.value, sec) ==> o.value == st && visited' == visited && skipped' == skipped + [sec]
    ensures o.Done? && !Locks.Locked(st.locks.value, sec) ==> skipped' == skipped
  {
    ghost var magic := MagicSectors(vol.pi, vol.dev);
    var locked := Locks.CheckLock(st.locks.value, sec);
    if locked {
      RawSkipStep(vol.pi, magic, sec, visited, skipped, st.locks.value);
      return Done(st), visited, skipped + [sec];
    }
    var v := RawVisit(vol, st, sec, fuel, dir);
    if v.Stop? {
      return Stop(v.halt), visited, skipped;
    }
    var (st', found) := v.value;
    assert found <==> sec in magic;
    RawVisitStep(vol.pi, magic, sec, visited, skipped, found);
    RawSkippedGrow(vol.pi, sec, skipped, st.locks.value, st'.locks.value);
    return Done(st'), if found then visited + [sec] else visited, skipped;
  }

  /** Appending the current lock set keeps the recorded sets growing into the next one. */
  lemma ReachedLocksGrow(seen: seq<Locks.LockSet>, ls: Locks.LockSet, ls': Locks.LockSet)
    requires forall j, k :: 0 <= j < k < |seen| ==> Copy.LocksGrow(Some(seen[j]), Some(seen[k]))
    requires forall k :: 0 <= k < |seen| ==> Copy.LocksGrow(Some(seen[k]), Some(ls))
    requires Copy.Healthy(ls) && Copy.LocksGrow(Some(ls), Some(ls'))
    ensures var seen' := seen + [ls];
            (forall j, k :: 0 <= j < k < |seen'| ==> Copy.LocksGrow(Some(seen'[j]), Some(seen'[k]))) &&
            (forall k :: 0 <= k < |seen'| ==> Copy.LocksGrow(Some(seen'[k]), Some(ls')))
  {
    var seen' := seen + [ls];
    forall k | 0 <= k < |seen'|
      ensures Copy.LocksGrow(Some(seen'[k]), Some(ls'))
    {
      if k < |seen| {
        Copy.LocksGrowTransitive(Some(seen[k]), Some(ls), Some(ls'));
      }
    }
  }

  /**
   * scroungeUsingRaw: walk every sector of the partition, skip the locked
   * ones, and visit the others, returning to the starting directory after
   * each. There is no MFT map, so parents are not followed, and the data
   * copied for each file locks its sectors. A sector is processed exactly
   * when it was not skipped as locked and starts with the record magic;
   * `visited` and `skipped` list those sectors in increasing order.
   */
  method UsingRaw(pi: PartitionInfo, dev: Device, fs: Fs, fuel: nat)
    returns (r: Outcome<Fs>, visited: seq<uint64>, skipped: seq<uint64>, locks: Locks.LockSet, seen: seq<Locks.LockSet>)
    requires Valid(fs)
    ensures r.Done? ==> Valid(r.value) && Grows(fs, r.value) && r.value.cwd == fs.cwd && Copy.Healthy(locks)
    ensures r.Done? ==> forall k :: 0 <= k < |visited| ==> pi.first <= visited[k] < pi.end && visited[k] !in skipped
    ensures r.Done? ==> forall s :: pi.first <= s < pi.end && s !in skipped ==> (s in visited <==> HasMagic(dev, s))
    ensures r.Done? ==> forall k :: 0 <= k < |skipped| ==> pi.first <= skipped[k] < pi.end && Locks.Locked(locks, skipped[k])
    ensures r.Done? ==> forall j, k :: 0 <= j < k < |visited| ==> visited[j] < visited[k]
    ensures r.Done? ==> |seen| == if pi.first < pi.end then pi.end - pi.first else 0
    ensures r.Done? ==> forall s: uint64 :: pi.first <= s < pi.end ==> (s in skipped <==> Locks.Locked(seen[s - pi.first], s))
    ensures r.Done? && |seen| > 0 ==> seen[0] == Locks.NoLocks
    ensures r.Done? ==> forall j, k :: 0 <= j < k < |seen| ==> Copy.LocksGrow(Some(seen[j]), Some(seen[k]))
    ensures r.Done? ==> forall k :: 0 <= k < |seen| ==> Copy.LocksGrow(Some(seen[k]), Some(locks))
  {
    var vol := Volume(pi, dev, None);
    var dir := fs.cwd;
    var st := State(fs, Some(Locks.NoLocks));
    visited, skipped, seen := [], [], [];
    var sec: uint64 := pi.first;
    while sec < pi.end
      invariant pi.first <= sec && (sec <= pi.end || sec == pi.first)
      invariant st.locks.Some? && Copy.Healthy(st.locks.value)
      invariant Valid(st.fs) && Grows(fs, st.fs) && st.fs.cwd == dir && dir in st.fs.dirs
      invariant RawVisited(pi, MagicSectors(pi, dev), sec, visited, skipped) && RawSkipped(pi, sec, skipped, st.locks.value)
      invariant SkippedAsReached(pi, sec, skipped, seen)
      invariant |seen| > 0 ==> seen[0] == Locks.NoLocks
      invariant |seen| == 0 ==> st.locks == Some(Locks.NoLocks)
      invariant forall j, k :: 0 <= j < k < |seen| ==> Copy.LocksGrow(Some(seen[j]), Some(seen[k]))
      invariant forall k :: 0 <= k < |seen| ==> Copy.LocksGrow(Some(seen[k]), st.locks)
    {
      var o;
      ghost var skipped0 := skipped;
      o, visited, skipped := RawStep(vol, st, sec, fuel, dir, visited, skipped);
      if o.Stop? {
        return Stop(o.halt), visited, skipped, st.locks.value, seen;
      }
      SkippedAsReachedStep(pi, sec, skipped0, seen, st.locks.value);
      ReachedLocksGrow(seen, st.locks.value, o.value.locks.value);
      seen := seen + [st.locks.value];
      GrowsTransitive(fs, st.fs, o.value.fs);
      st := o.value;
      sec := sec + 1;
    }
    RawVisitedMagic(pi, dev, sec, visited, skipped);
    return Done(st.fs), visited, skipped, st.locks.value, seen;
  }
}
