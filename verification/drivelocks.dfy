/**
 * The older lock variant of src/drive.cpp: IntersectRange, AddLocationLock
 * and CheckLocationLock over the lock array kept in the partition info.
 * Every entry the new range touches may be adjusted, and the check reports
 * where the locked range ends.
 */
module DriveLocks {
  import opened Usuals
  import opened Locks

  /** Outcome of IntersectRange: whether it claimed the new range, and the stored range after it. */
  datatype Merge = Merge(claimed: bool, stored: Range)

  /**
   * IntersectRange as written. The first case replaces the stored end by the
   * new end even when the new range ends earlier, and the "encompassed" case
   * keeps a stored range that lies strictly inside the new one unchanged.
   */
  function IntersectRangeAsWritten(stored: Range, b2: uint64, e2: uint64): (m: Merge)
    ensures m.claimed <==> Intersects(stored.beg, stored.end, b2, e2) ||
                           (stored.beg > b2 && stored.end < e2) || stored == Range(b2, e2)
    ensures !m.claimed ==> m.stored == stored
  {
    var b1, e1 := stored.beg, stored.end;
    if b1 <= b2 && e1 > b2 && b1 < e2 then Merge(true, Range(b1, e2))
    else if b1 < e2 && e1 >= e2 && b2 < e1 then Merge(true, Range(b2, e1))
    else if b1 > b2 && e1 < e2 then Merge(true, stored)
    else if b1 == b2 && e1 == e2 then Merge(true, stored)
    else Merge(false, stored)
  }

  /** A stored range shrinks when a range nested in its first part is added. */
  lemma NestedRangeShrinks()
    ensures IntersectRangeAsWritten(Range(0, 100), 10, 20) == Merge(true, Range(0, 20))
    ensures Covers(Range(0, 100), 50) && !Covers(Range(0, 20), 50) && !(10 <= 50 < 20)
  {
  }

  /** A new range that strictly encloses a stored one is claimed but not recorded. */
  lemma EnclosingRangeDropped()
    ensures IntersectRangeAsWritten(Range(10, 20), 0, 100) == Merge(true, Range(10, 20))
    ensures 0 <= 50 < 100 && !Covers(Range(10, 20), 50)
  {
  }

  /**
   * IntersectRange as evidently intended: the same cases claim the new range,
   * and a claimed range is stored as the hull of the two.
   */
  function IntersectRange(stored: Range, b2: uint64, e2: uint64): (m: Merge)
    ensures m.claimed == IntersectRangeAsWritten(stored, b2, e2).claimed
    ensures !m.claimed ==> m.stored == stored
  {
    var b1, e1 := stored.beg, stored.end;
    var claimed :=
      (b1 <= b2 && e1 > b2 && b1 < e2) || (b1 < e2 && e1 >= e2 && b2 < e1) ||
      (b1 > b2 && e1 < e2) || (b1 == b2 && e1 == e2);
    if claimed then Merge(true, Range(Min(b1, b2), Max(e1, e2))) else Merge(false, stored)
  }

  /** A claimed range is covered exactly by the stored range and the new one together. */
  lemma IntersectRangeCovers(stored: Range, b2: uint64, e2: uint64, s: int)
    requires IntersectRange(stored, b2, e2).claimed
    ensures Covers(IntersectRange(stored, b2, e2).stored, s) <==> Covers(stored, s) || b2 <= s < e2
  {
  }

  /** The lock array of the partition info. */
  predicate LockedIn(es: seq<Range>, s: int)
  {
    exists k :: 0 <= k < |es| && Covers(es[k], s)
  }

  /** Apply a range merge to every entry, recording whether any claimed the range. */
  function MergeAllAsWritten(es: seq<Range>, b: uint64, e: uint64): (r: (seq<Range>, bool))
    ensures |r.0| == |es|
    ensures r.1 <==> exists k :: 0 <= k < |es| && IntersectRangeAsWritten(es[k], b, e).claimed
    ensures forall k :: 0 <= k < |es| ==> r.0[k] == IntersectRangeAsWritten(es[k], b, e).stored
  {
    if |es| == 0 then ([], false)
    else
      var m := IntersectRangeAsWritten(es[0], b, e);
      var rest := MergeAllAsWritten(es[1..], b, e);
      assert forall k :: 1 <= k < |es| ==> es[1..][k - 1] == es[k];
      ([m.stored] + rest.0, m.claimed || rest.1)
  }

  function MergeAll(es: seq<Range>, b: uint64, e: uint64): (r: (seq<Range>, bool))
    ensures |r.0| == |es|
    ensures r.1 <==> exists k :: 0 <= k < |es| && IntersectRange(es[k], b, e).claimed
    ensures forall k :: 0 <= k < |es| ==> r.0[k] == IntersectRange(es[k], b, e).stored
  {
    if |es| == 0 then ([], false)
    else
      var m := IntersectRange(es[0], b, e);
      var rest := MergeAll(es[1..], b, e);
      assert forall k :: 1 <= k < |es| ==> es[1..][k - 1] == es[k];
      ([m.stored] + rest.0, m.claimed || rest.1)
  }

  /** AddLocationLock as written: every entry is merged, and the range is appended only if none claimed it. */
  function AddLocationLockAsWritten(es: seq<Range>, b: uint64, e: uint64): (r: seq<Range>)
    ensures |r| == |es| || r == es + [Range(b, e)]
    ensures (exists k :: 0 <= k < |es| && IntersectRangeAsWritten(es[k], b, e).claimed) ==>
              |r| == |es| && forall k :: 0 <= k < |es| ==> r[k] == IntersectRangeAsWritten(es[k], b, e).stored
    ensures (forall k :: 0 <= k < |es| ==> !IntersectRangeAsWritten(es[k], b, e).claimed) ==>
              r == es + [Range(b, e)]
  {
    var m := MergeAllAsWritten(es, b, e);
    if m.1 then m.0 else es + [Range(b, e)]
  }

  /** Adding [10, 20) to a set holding [0, 100) unlocks sector 50. */
  lemma AddLocationLockLosesSectors()
    ensures AddLocationLockAsWritten([Range(0, 100)], 10, 20) == [Range(0, 20)]
    ensures LockedIn([Range(0, 100)], 50) && !LockedIn([Range(0, 20)], 50)
  {
    var es := [Range(0, 100)];
    NestedRangeShrinks();
    assert es[1..] == [];
    assert MergeAllAsWritten(es[1..], 10, 20) == ([], false);
    assert IntersectRangeAsWritten(es[0], 10, 20) == Merge(true, Range(0, 20));
    assert [Range(0, 20)] + [] == [Range(0, 20)];
    assert MergeAllAsWritten(es, 10, 20) == ([Range(0, 20)], true);
    assert Covers(es[0], 50);
  }

  /** AddLocationLock with the intended merge. */
  function AddLocationLock(es: seq<Range>, b: uint64, e: uint64): (r: seq<Range>)
    ensures |r| == |es| || r == es + [Range(b, e)]
    ensures (exists k :: 0 <= k < |es| && IntersectRange(es[k], b, e).claimed) ==>
              |r| == |es| && forall k :: 0 <= k < |es| ==> r[k] == IntersectRange(es[k], b, e).stored
    ensures (forall k :: 0 <= k < |es| ==> !IntersectRange(es[k], b, e).claimed) ==>
              r == es + [Range(b, e)]
  {
    var m := MergeAll(es, b, e);
    if m.1 then m.0 else es + [Range(b, e)]
  }

  /** With the intended merge, a sector is locked after the insertion iff it was before or lies in the new range. */
  lemma AddLocationLockCoverage(es: seq<Range>, b: uint64, e: uint64, s: int)
    ensures LockedIn(AddLocationLock(es, b, e), s) <==> LockedIn(es, s) || b <= s < e
  {
    var m := MergeAll(es, b, e);
    var r := AddLocationLock(es, b, e);
    if m.1 {
      assert r == m.0;
      if LockedIn(es, s) {
        var k :| 0 <= k < |es| && Covers(es[k], s);
        if IntersectRange(es[k], b, e).claimed {
          IntersectRangeCovers(es[k], b, e, s);
        }
        assert Covers(r[k], s);
      }
      if b <= s < e {
        var k :| 0 <= k < |es| && IntersectRange(es[k], b, e).claimed;
        IntersectRangeCovers(es[k], b, e, s);
        assert Covers(r[k], s);
      }
      if LockedIn(r, s) {
        var k :| 0 <= k < |r| && Covers(r[k], s);
        if IntersectRange(es[k], b, e).claimed {
          IntersectRangeCovers(es[k], b, e, s);
        }
      }
    } else {
      if LockedIn(es, s) {
        var k :| 0 <= k < |es| && Covers(es[k], s);
        assert r[k] == es[k];
      }
      if b <= s < e {
        assert r[|es|] == Range(b, e);
      }
      if LockedIn(r, s) {
        var k :| 0 <= k < |r| && Covers(r[k], s);
        if k < |es| {
          assert r[k] == es[k];
        }
      }
    }
  }

  /**
   * CheckLocationLock: whether `sec` is locked and, if so, the end of the
   * first entry holding it, which the caller's `sec` is set to.
   */
  method CheckLocationLock(es: seq<Range>, sec: uint64) returns (locked: bool, next: uint64)
    ensures locked <==> LockedIn(es, sec)
    ensures !locked ==> next == sec
    ensures locked ==> exists k :: 0 <= k < |es| && Covers(es[k], sec) && next == es[k].end &&
                                   forall j :: 0 <= j < k ==> !Covers(es[j], sec)
    ensures locked ==> next > sec
  {
    var i := 0;
    while i < |es|
      invariant 0 <= i <= |es|
      invariant forall k :: 0 <= k < i ==> !Covers(es[k], sec)
    {
      if sec >= es[i].beg && sec < es[i].end {
        return true, es[i].end;
      }
      i := i + 1;
    }
    return false, sec;
  }
}
