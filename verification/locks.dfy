/**
 * The location lock set of src/misc.c: half-open sector ranges that the raw
 * scan must skip because a recovered file's data lives there.
 */
module Locks {
  import opened Usuals

  /** A locked range of sectors [beg, end). */
  datatype Range = Range(beg: uint64, end: uint64)

  predicate Covers(r: Range, s: int)
  {
    r.beg <= s < r.end
  }

  /**
   * The `drivelocks` structure: the entries in use, the allocated capacity
   * (`_count`), and whether the storage pointer is non-null. A failed
   * reallocation leaves the pointer null: every entry is lost, nothing can be
   * added afterwards, and every check fails.
   */
  datatype LockSet = LockSet(entries: seq<Range>, capacity: nat, storage: bool)

  /** The zero-filled structure the raw scan starts from. */
  const NoLocks := LockSet([], 0, false)

  const Growth: nat := 0x400

  /** What every reachable lock set satisfies: entries within capacity, none without storage. */
  predicate Valid(ls: LockSet)
  {
    |ls.entries| <= ls.capacity && (!ls.storage ==> ls.entries == [])
  }

  /** Sector `s` lies in some entry the check can see. */
  predicate Locked(ls: LockSet, s: int)
  {
    ls.storage && exists k :: 0 <= k < |ls.entries| && Covers(ls.entries[k], s)
  }

  function Min(a: uint64, b: uint64): uint64 { if a < b then a else b }
  function Max(a: uint64, b: uint64): uint64 { if a < b then b else a }

  /** Index of the first entry from `i` on that intersects [beg, end). */
  function FirstIntersecting(es: seq<Range>, beg: uint64, end: uint64, i: nat): (k: Option<nat>)
    requires i <= |es|
    decreases |es| - i
    ensures k.Some? ==> i <= k.value < |es| && Intersects(es[k.value].beg, es[k.value].end, beg, end)
    ensures k.Some? ==> forall j :: i <= j < k.value ==> !Intersects(es[j].beg, es[j].end, beg, end)
    ensures k.None? ==> forall j :: i <= j < |es| ==> !Intersects(es[j].beg, es[j].end, beg, end)
  {
    if i == |es| then None
    else if Intersects(es[i].beg, es[i].end, beg, end) then Some(i)
    else FirstIntersecting(es, beg, end, i + 1)
  }

  /**
   * addLocationLock. When the entries fill the capacity it grows by 0x400
   * and the storage is reallocated; `allocOk` says whether that succeeds.
   * With storage, the first entry that intersects [beg, end) is widened to
   * cover both; if none does the range is appended.
   */
  function AddLock(ls: LockSet, beg: uint64, end: uint64, allocOk: bool): (r: LockSet)
    ensures ls.capacity <= |ls.entries| ==> r.capacity == ls.capacity + Growth && r.storage == allocOk
    ensures ls.capacity > |ls.entries| ==> r.capacity == ls.capacity && r.storage == ls.storage
    ensures Valid(ls) ==> Valid(r)
  {
    var grown :=
      if ls.capacity <= |ls.entries| then LockSet(if allocOk then ls.entries else [], ls.capacity + Growth, allocOk)
      else ls;
    if !grown.storage then grown
    else
      match FirstIntersecting(grown.entries, beg, end, 0)
      case Some(i) =>
        var e := grown.entries[i];
        grown.(entries := grown.entries[i := Range(Min(e.beg, beg), Max(e.end, end))])
      case None => grown.(entries := grown.entries + [Range(beg, end)])
  }

  /** The storage is usable for this insertion: present, or successfully (re)allocated now. */
  predicate Usable(ls: LockSet, allocOk: bool)
  {
    if ls.capacity <= |ls.entries| then allocOk else ls.storage
  }

  /** Where the insertion went: one entry widened in place, or one appended; nothing else changes. */
  lemma AddLockShape(ls: LockSet, beg: uint64, end: uint64, allocOk: bool)
    requires Usable(ls, allocOk)
    ensures var r := AddLock(ls, beg, end, allocOk);
            match FirstIntersecting(ls.entries, beg, end, 0)
            case Some(i) =>
              |r.entries| == |ls.entries| &&
              r.entries[i] == Range(Min(ls.entries[i].beg, beg), Max(ls.entries[i].end, end)) &&
              (forall j :: 0 <= j < |ls.entries| && j != i ==> r.entries[j] == ls.entries[j])
            case None =>
              r.entries == ls.entries + [Range(beg, end)]
  {
  }

  /** Widening an entry by a range it intersects covers exactly the two ranges together. */
  lemma WidenCovers(e: Range, beg: uint64, end: uint64, s: int)
    requires Intersects(e.beg, e.end, beg, end)
    ensures Covers(Range(Min(e.beg, beg), Max(e.end, end)), s) <==> Covers(e, s) || beg <= s < end
  {
  }

  /**
   * After an insertion that the storage allows, a sector is locked exactly
   * when it was locked before or lies in the new range.
   */
  lemma AddLockCoverage(ls: LockSet, beg: uint64, end: uint64, allocOk: bool, s: int)
    requires Valid(ls) && Usable(ls, allocOk)
    ensures Locked(AddLock(ls, beg, end, allocOk), s) <==> Locked(ls, s) || beg <= s < end
  {
    var r := AddLock(ls, beg, end, allocOk);
    AddLockShape(ls, beg, end, allocOk);
    match FirstIntersecting(ls.entries, beg, end, 0)
    case Some(i) =>
      WidenCovers(ls.entries[i], beg, end, s);
      if Locked(ls, s) {
        var k :| 0 <= k < |ls.entries| && Covers(ls.entries[k], s);
        assert Covers(r.entries[k], s);
      }
      if beg <= s < end {
        assert Covers(r.entries[i], s);
      }
      if Locked(r, s) {
        var k :| 0 <= k < |r.entries| && Covers(r.entries[k], s);
        if k != i {
          assert Covers(ls.entries[k], s);
        }
      }
    case None =>
      if Locked(ls, s) {
        var k :| 0 <= k < |ls.entries| && Covers(ls.entries[k], s);
        assert r.entries[k] == ls.entries[k];
      }
      if beg <= s < end {
        assert r.entries[|ls.entries|] == Range(beg, end);
      }
      if Locked(r, s) {
        var k :| 0 <= k < |r.entries| && Covers(r.entries[k], s);
        if k < |ls.entries| {
          assert r.entries[k] == ls.entries[k];
        }
      }
  }

  /** Once a reallocation has failed the set stays empty: nothing is locked, whatever is added. */
  lemma LostStorageStaysLost(ls: LockSet, beg: uint64, end: uint64, allocOk: bool, s: int)
    requires Valid(ls) && !ls.storage && ls.capacity > 0
    ensures AddLock(ls, beg, end, allocOk) == ls
    ensures !Locked(ls, s)
  {
  }

  /** A failed reallocation drops every lock taken so far. */
  lemma FailedGrowthDropsLocks(ls: LockSet, beg: uint64, end: uint64, s: int)
    requires ls.capacity <= |ls.entries|
    ensures !Locked(AddLock(ls, beg, end, false), s)
    ensures Valid(AddLock(ls, beg, end, false)) && !AddLock(ls, beg, end, false).storage
  {
  }

  /** Ranges that only touch are kept as separate entries. */
  lemma TouchingRangesStaySeparate()
    ensures var ls := AddLock(AddLock(NoLocks, 10, 20, true), 20, 30, true);
            ls.entries == [Range(10, 20), Range(20, 30)]
  {
    var one := AddLock(NoLocks, 10, 20, true);
    assert one.entries == [Range(10, 20)];
    assert FirstIntersecting(one.entries, 20, 30, 0) == None;
  }

  /** Only the first intersecting entry is widened, so entries may come to overlap. */
  lemma WideningCanOverlap()
    ensures var ls := AddLock(LockSet([Range(0, 10), Range(20, 30)], Growth, true), 5, 25, true);
            ls.entries == [Range(0, 25), Range(20, 30)] &&
            Intersects(ls.entries[0].beg, ls.entries[0].end, ls.entries[1].beg, ls.entries[1].end)
  {
    assert FirstIntersecting([Range(0, 10), Range(20, 30)], 5, 25, 0) == Some(0);
  }

  /**
   * checkLocationLock: whether some entry holds `sec`. The C function also
   * assigns the entry's end to its by-value parameter, which the caller never
   * sees.
   */
  method CheckLock(ls: LockSet, sec: uint64) returns (locked: bool)
    ensures locked <==> Locked(ls, sec)
  {
    if !ls.storage {
      return false;
    }
    var i := 0;
    while i < |ls.entries|
      invariant 0 <= i <= |ls.entries|
      invariant forall k :: 0 <= k < i ==> !Covers(ls.entries[k], sec)
    {
      if sec >= ls.entries[i].beg && sec < ls.entries[i].end {
        return true;
      }
      i := i + 1;
    }
    return false;
  }
}
