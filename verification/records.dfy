/**
 * MFT records read from the drive and attribute lookup across records
 * (src/ntfsx.c): ntfsx_record_read, ntfsx_record_findattribute with its
 * attribute-list fallback, ntfsx_attribute_next and ntfsx_mftmap_load.
 */
module Records {
  import opened Usuals
  import opened Bytes
  import opened Layout
  import opened Drive
  import opened Ntfs
  import MftMap
  import DataRuns

  /**
   * What a lookup can reach: the partition, the raw device and, while a
   * recovery through the MFT is running, the MFT map installed in the
   * partition info (possibly still empty while it is being loaded).
   */
  datatype Volume = Volume(pi: PartitionInfo, dev: Device, mft: Option<seq<MftMap.Block>>)

  /**
   * ntfsx_record_read: read one cluster at `sector` and accept it as an MFT
   * record if it carries the record magic and its fixups check out. A read
   * failure is fatal; a rejected record is `Done(None)`.
   */
  function RecordRead(vol: Volume, sector: uint64): (r: Outcome<Option<seq<byte>>>)
    ensures r == Stop(Fatal) <==> ReadSectors(vol.dev, sector, ClusterSize(vol.pi)).None?
    ensures r.Stop? ==> r.halt == Fatal
    ensures r.Done? && r.value.Some? <==>
              var raw := ReadSectors(vol.dev, sector, ClusterSize(vol.pi));
              raw.Some? && RecMagicOf(raw.value) == RecMagic && DoFixups(raw.value).ok
    ensures r.Done? && r.value.Some? ==>
              r.value.value == DoFixups(ReadSectors(vol.dev, sector, ClusterSize(vol.pi)).value).rec &&
              |r.value.value| == ClusterSize(vol.pi)
  {
    match ReadSectors(vol.dev, sector, ClusterSize(vol.pi))
    case None => Stop(Fatal)
    case Some(raw) =>
      if RecMagicOf(raw) != RecMagic then Done(None)
      else
        var f := DoFixups(raw);
        if !f.ok then Done(None) else Done(Some(f.rec))
  }

  /** The sentinel sector: reading it always ends the program. */
  lemma RecordReadInvalidSector(vol: Volume)
    ensures RecordRead(vol, InvalidSector) == Stop(Fatal)
  {
    InvalidSectorUnreadable(vol.dev, ClusterSize(vol.pi));
  }

  /** An attribute header at offset `at` of the cluster buffer it was found in. */
  datatype Attr = Attr(buf: seq<byte>, at: nat)

  /** What a caller can rely on for an attribute returned by a lookup for type `t`. */
  predicate Located(a: Attr, t: uint32)
  {
    Live(a.buf, a.at, |a.buf|) && AttrType(a.buf, a.at) == t
  }

  /**
   * ntfsx_record_findattribute: the first attribute of type `t` in the
   * record itself; only when there is none, and the record has a resident
   * attribute list and an MFT map is installed, the list's entries of type
   * `t` are followed into the records they name. Every step into another
   * record costs one unit of `fuel`.
   */
  function FindInRecord(vol: Volume, rec: seq<byte>, t: uint32, fuel: nat): (r: Outcome<Option<Attr>>)
    decreases fuel, 1, 0
    ensures r.Done? && r.value.Some? ==> Located(r.value.value, t)
    ensures r.Done? && r.value.Some? ==> r.value.value.buf == rec || |r.value.value.buf| == ClusterSize(vol.pi)
    ensures FindAttribute(rec, t).Found? ==> r == Done(Some(Attr(rec, FindAttribute(rec, t).at)))
    ensures FindAttribute(rec, t).Loops? ==> r == Stop(Diverges)
  {
    match FindAttribute(rec, t)
    case Found(at) => Done(Some(Attr(rec, at)))
    case Loops => Stop(Diverges)
    case NotFound =>
      match FindAttribute(rec, AttributeList)
      case Loops => Stop(Diverges)
      case NotFound => Done(None)
      case Found(l) =>
        if AttrNonResident(rec, l) != 0 || vol.mft.None? then Done(None)
        else ListSearch(vol, rec, l + ResDataOffset(rec, l), l + AttrLength(rec, l), t, fuel)
  }

  /**
   * The loop over the entries of a resident attribute list, from the entry
   * at `e` up to `end`. An entry of type `t` sends the lookup to the record
   * the entry names, through the MFT map; a record that cannot be accepted
   * is passed over. A zero-length entry is never left.
   */
  function ListSearch(vol: Volume, rec: seq<byte>, e: nat, end: nat, t: uint32, fuel: nat): (r: Outcome<Option<Attr>>)
    requires vol.mft.Some?
    decreases fuel, 0, end - e
    ensures r.Done? && r.value.Some? ==> Located(r.value.value, t)
    ensures r.Done? && r.value.Some? ==> |r.value.value.buf| == ClusterSize(vol.pi)
    ensures e >= end ==> r == Done(None)
  {
    if e >= end then Done(None)
    else
      var here := if ListType(rec, e) == t then FollowEntry(vol, rec, e, t, fuel) else Done(None);
      if here.Stop? || here.value.Some? then here
      else if ListLength(rec, e) == 0 then Stop(Diverges)
      else ListSearch(vol, rec, e + ListLength(rec, e), end, t, fuel)
  }

  /** Look for `t` in the record that list entry `e` refers to. */
  function FollowEntry(vol: Volume, rec: seq<byte>, e: nat, t: uint32, fuel: nat): (r: Outcome<Option<Attr>>)
    requires vol.mft.Some?
    decreases fuel, 0, 0
    ensures r.Done? && r.value.Some? ==> Located(r.value.value, t)
    ensures r.Done? && r.value.Some? ==> |r.value.value.buf| == ClusterSize(vol.pi)
    ensures fuel == 0 ==> r == Stop(OutOfFuel)
  {
    if fuel == 0 then Stop(OutOfFuel)
    else
      var sector := MftMap.SectorForIndex(vol.pi, vol.mft.value, RefIndex(ListRef(rec, e)));
      match RecordRead(vol, sector)
      case Stop(h) => Stop(h)
      case Done(None) => Done(None)
      case Done(Some(r2)) => FindInRecord(vol, r2, t, fuel - 1)
  }

  /** Without an MFT map only the record itself is searched. */
  lemma NoMapInlineOnly(vol: Volume, rec: seq<byte>, t: uint32, fuel: nat)
    requires vol.mft.None?
    ensures FindAttribute(rec, t).NotFound? ==>
              FindInRecord(vol, rec, t, fuel) == (if FindAttribute(rec, AttributeList).Loops? then Stop(Diverges) else Done(None))
  {
  }

  /**
   * While the map is still empty (as it is while $MFT itself is being
   * loaded), following any list entry reads the sentinel sector and ends the
   * program.
   */
  lemma EmptyMapEntryIsFatal(vol: Volume, rec: seq<byte>, e: nat, t: uint32, fuel: nat)
    requires vol.mft == Some([]) && fuel > 0
    ensures FollowEntry(vol, rec, e, t, fuel) == Stop(Fatal)
  {
    RecordReadInvalidSector(vol);
  }

  /**
   * ntfsx_attribute_next: the next attribute of type `t` after `a` in the
   * same cluster buffer.
   */
  function AttributeNext(a: Attr, t: uint32): (r: Outcome<Option<Attr>>)
    ensures r.Done? && r.value.Some? ==> Located(r.value.value, t) && r.value.value.buf == a.buf
    ensures r.Done? && r.value.Some? ==> r.value.value.at >= a.at
    ensures r.Done? && r.value.Some? && Live(a.buf, a.at, |a.buf|) && AttrLength(a.buf, a.at) > 0 ==>
              r.value.value.at > a.at
    ensures !Live(a.buf, a.at, |a.buf|) ==> r == Done(None)
  {
    match NextAttribute(a.buf, a.at, t)
    case Found(at) => Done(Some(Attr(a.buf, at)))
    case NotFound => Done(None)
    case Loops => Stop(Diverges)
  }

  /**
   * ntfsx_mftmap_load: the MFT map from the data runs of the DATA attribute
   * of the $MFT record `rec`. `Done(None)`: no DATA attribute, a resident one,
   * or a sparse run.
   */
  function LoadMap(vol: Volume, rec: seq<byte>, fuel: nat): (r: Outcome<Option<seq<MftMap.Block>>>)
    ensures r.Done? && r.value.Some? ==> forall k :: 0 <= k < |r.value.value| ==>
              r.value.value[k].length > 0 && r.value.value[k].firstSector < vol.pi.end
    ensures FindInRecord(vol, rec, Data, fuel).Stop? <==> r.Stop?
  {
    match FindInRecord(vol, rec, Data, fuel)
    case Stop(h) => Stop(h)
    case Done(None) => Done(None)
    case Done(Some(a)) =>
      if AttrNonResident(a.buf, a.at) == 0 then Done(None)
      else Done(MftMap.FromRuns(vol.pi, DataRuns.AllRuns(a.buf, a.at + NonResRunsOffset(a.buf, a.at))))
  }

  /**
   * With a non-resident DATA attribute in the $MFT record itself, the map is
   * built from its runs whatever map is installed, and it is built exactly
   * when none of them is sparse.
   */
  lemma LoadMapInline(vol: Volume, rec: seq<byte>, fuel: nat)
    requires FindAttribute(rec, Data).Found?
    requires AttrNonResident(rec, FindAttribute(rec, Data).at) != 0
    ensures var at := FindAttribute(rec, Data).at;
            var runs := DataRuns.AllRuns(rec, at + NonResRunsOffset(rec, at));
            LoadMap(vol, rec, fuel) == Done(MftMap.FromRuns(vol.pi, runs)) &&
            (LoadMap(vol, rec, fuel).value.Some? <==> forall k :: 0 <= k < |runs| ==> !runs[k].sparse)
  {
    var at := FindAttribute(rec, Data).at;
    var runs := DataRuns.AllRuns(rec, at + NonResRunsOffset(rec, at));
    LoadMapOfInline(vol, rec, fuel);
    MftMap.FromRunsFailsIffSparse(vol.pi, runs);
  }

  lemma LoadMapOfInline(vol: Volume, rec: seq<byte>, fuel: nat)
    requires FindAttribute(rec, Data).Found?
    requires AttrNonResident(rec, FindAttribute(rec, Data).at) != 0
    ensures var at := FindAttribute(rec, Data).at;
            LoadMap(vol, rec, fuel) == Done(MftMap.FromRuns(vol.pi, DataRuns.AllRuns(rec, at + NonResRunsOffset(rec, at))))
  {
    var at := FindAttribute(rec, Data).at;
    assert FindInRecord(vol, rec, Data, fuel) == Done(Some(Attr(rec, at)));
  }
}
