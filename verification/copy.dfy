/**
 * The run-by-run copy of a non-resident DATA attribute in processMFTRecord
 * (src/scrounge.c): sparse runs become zero chunks, other runs are read
 * cluster by cluster, every chunk is at most one cluster and is taken off
 * the attribute's data size, and before a non-sparse run is read its
 * sectors are added to the raw scan's lock set when there is one.
 */
module Copy {
  import opened Usuals
  import opened Bytes
  import opened Drive
  import opened DataRuns
  import opened Locks
  import opened Records

  /** n zero bytes. */
  function Zeros(n: nat): (z: seq<byte>)
    ensures |z| == n && forall k :: 0 <= k < n ==> z[k] == 0
  {
    seq(n, k => 0)
  }

  /**
   * The zero chunks of a sparse run of `count` clusters from cluster `i` on:
   * a cluster's worth each, or what is left when that is less, until the size
   * runs out.
   */
  function ZeroChunks(cs: nat, i: nat, count: uint64, size: uint64): (r: (seq<byte>, uint64))
    requires cs < 0xFFFF_FFFF
    decreases count - i
    ensures |r.0| + r.1 == size
    ensures forall k :: 0 <= k < |r.0| ==> r.0[k] == 0
    ensures r.1 > 0 && cs > 0 ==> i >= count || |r.0| >= cs
  {
    if i >= count || size == 0 then ([], size)
    else
      var num := if size < 0xFFFF_FFFF && cs > size then size else cs;
      var (d, rem) := ZeroChunks(cs, i + 1, count, size - num);
      (Zeros(num) + d, rem)
  }

  /** The bytes of clusters `i` up to `count` of a run starting at `cluster`, as stored on the device. */
  function Stream(vol: Volume, cluster: uint64, i: nat, count: uint64): seq<byte>
    decreases count - i
  {
    if i >= count then []
    else
      Slice(vol.dev.image, SectorToBytes(ClusterToSector(vol.pi, Wrap64(cluster + i))), ClusterSize(vol.pi))
        + Stream(vol, cluster, i + 1, count)
  }

  /**
   * The chunks of a non-sparse run as evidently intended: each cluster is
   * read (a failed read is fatal) and min(cluster size, bytes left) of it is
   * written.
   */
  function ReadChunks(vol: Volume, cluster: uint64, i: nat, count: uint64, size: uint64): (r: Outcome<(seq<byte>, uint64)>)
    decreases count - i
    ensures r.Stop? ==> r.halt == Fatal
    ensures r.Done? ==> |r.value.0| + r.value.1 == size
    ensures r.Done? ==> r.value.0 <= Stream(vol, cluster, i, count)
    ensures r.Done? && r.value.1 > 0 ==> r.value.0 == Stream(vol, cluster, i, count)
  {
    if i >= count || size == 0 then Done(([], size))
    else
      var cs := ClusterSize(vol.pi);
      var num := if cs < size then cs else size;
      match ReadSectors(vol.dev, ClusterToSector(vol.pi, Wrap64(cluster + i)), cs)
      case None => Stop(Fatal)
      case Some(buf) =>
        match ReadChunks(vol, cluster, i + 1, count, size - num)
        case Stop(h) => Stop(h)
        case Done((d, rem)) =>
          var here := Slice(vol.dev.image, SectorToBytes(ClusterToSector(vol.pi, Wrap64(cluster + i))), cs);
          assert buf == here;
          ChunkStep(buf, num, d, Stream(vol, cluster, i + 1, count));
          Done((buf[..num] + d, rem))
  }

  /** A chunk cut from a cluster, followed by a prefix of the rest, is a prefix of the cluster and the rest. */
  lemma ChunkStep(here: seq<byte>, num: nat, d: seq<byte>, rest: seq<byte>)
    requires num <= |here| && d <= rest
    requires |d| > 0 ==> num == |here|
    ensures here[..num] + d <= here + rest
    ensures num == |here| && d == rest ==> here[..num] + d == here + rest
  {
    assert here[..|here|] == here;
  }

  /**
   * The chunks of a non-sparse run as written: the bytes left are cast to
   * 32 bits before the minimum is taken, so from 4 GiB on a chunk can be
   * short or empty.
   */
  function ReadChunksAsWritten(vol: Volume, cluster: uint64, i: nat, count: uint64, size: uint64): (r: Outcome<(seq<byte>, uint64)>)
    decreases count - i
    ensures r.Done? ==> |r.value.0| + r.value.1 == size
  {
    if i >= count || size == 0 then Done(([], size))
    else
      var cs := ClusterSize(vol.pi);
      var num := if cs < Wrap32(size) then cs else Wrap32(size);
      match ReadSectors(vol.dev, ClusterToSector(vol.pi, Wrap64(cluster + i)), cs)
      case None => Stop(Fatal)
      case Some(buf) =>
        match ReadChunksAsWritten(vol, cluster, i + 1, count, size - num)
        case Stop(h) => Stop(h)
        case Done((d, rem)) => Done((buf[..num] + d, rem))
  }

  /** Below 4 GiB the cast changes nothing. */
  lemma {:induction false} AsWrittenAgreesBelow4GiB(vol: Volume, cluster: uint64, i: nat, count: uint64, size: uint64)
    requires size < U32_LIMIT
    decreases count - i
    ensures ReadChunksAsWritten(vol, cluster, i, count, size) == ReadChunks(vol, cluster, i, count, size)
  {
    if i < count && size != 0 {
      var cs := ClusterSize(vol.pi);
      var num := if cs < size then cs else size;
      AsWrittenAgreesBelow4GiB(vol, cluster, i + 1, count, size - num);
      AsWrittenStep(vol, cluster, i, count, size);
    }
  }

  /** One cluster below 4 GiB: both copies take the same chunk, so they agree when the rest does. */
  lemma AsWrittenStep(vol: Volume, cluster: uint64, i: nat, count: uint64, size: uint64)
    requires 0 < size < U32_LIMIT && i < count
    requires var cs := ClusterSize(vol.pi);
             var num := if cs < size then cs else size;
             ReadChunksAsWritten(vol, cluster, i + 1, count, size - num) == ReadChunks(vol, cluster, i + 1, count, size - num)
    ensures ReadChunksAsWritten(vol, cluster, i, count, size) == ReadChunks(vol, cluster, i, count, size)
  {
  }

  /**
   * A file of exactly 4 GiB in one readable cluster: as written nothing is
   * written and the whole size is left over; the intended copy writes the
   * cluster.
   */
  lemma FourGiBFileWritesNothing(vol: Volume, cluster: uint64)
    requires ReadSectors(vol.dev, ClusterToSector(vol.pi, cluster), ClusterSize(vol.pi)).Some?
    requires vol.pi.cluster > 0
    ensures ReadChunksAsWritten(vol, cluster, 0, 1, U32_LIMIT) == Done(([], U32_LIMIT))
    ensures var r := ReadChunks(vol, cluster, 0, 1, U32_LIMIT);
            r.Done? && |r.value.0| == ClusterSize(vol.pi)
  {
    assert Wrap64(cluster + 0) == cluster;
    var cs := ClusterSize(vol.pi);
    assert ReadChunksAsWritten(vol, cluster, 1, 1, U32_LIMIT) == Done(([], U32_LIMIT));
    assert ReadChunks(vol, cluster, 1, 1, U32_LIMIT - cs) == Done(([], U32_LIMIT - cs));
  }

  /** The lock set is in a state where every insertion takes effect (allocation succeeds). */
  predicate Healthy(ls: LockSet)
  {
    Valid(ls) && Usable(ls, true)
  }

  /** Every sector locked in `a` is locked in `b`, and `b` still takes insertions. */
  ghost predicate LocksGrow(a: Option<LockSet>, b: Option<LockSet>)
  {
    (a.None? <==> b.None?) &&
    (a.Some? && Healthy(a.value) ==> Healthy(b.value) && forall s :: Locked(a.value, s) ==> Locked(b.value, s))
  }

  lemma LocksGrowTransitive(a: Option<LockSet>, b: Option<LockSet>, c: Option<LockSet>)
    requires LocksGrow(a, b) && LocksGrow(b, c)
    ensures LocksGrow(a, c)
  {
  }

  /** The sectors of a run: CLUSTER_TO_SECTOR of its first cluster up to that of the cluster after it. */
  function RunStart(pi: PartitionInfo, run: Cursor): uint64
  {
    ClusterToSector(pi, run.cluster)
  }

  function RunEnd(pi: PartitionInfo, run: Cursor): uint64
  {
    ClusterToSector(pi, Wrap64(run.cluster + run.length))
  }

  /** With allocation succeeding, an insertion keeps the set healthy and locks exactly the old sectors and the range. */
  lemma HealthyAdd(ls: LockSet, beg: uint64, end: uint64)
    requires Healthy(ls)
    ensures Healthy(AddLock(ls, beg, end, true))
    ensures forall s :: Locked(AddLock(ls, beg, end, true), s) <==> Locked(ls, s) || beg <= s < end
  {
    forall s
      ensures Locked(AddLock(ls, beg, end, true), s) <==> Locked(ls, s) || beg <= s < end
    {
      AddLockCoverage(ls, beg, end, true, s);
    }
  }

  /** addLocationLock for a run, when a lock set is installed. */
  function LockRun(pi: PartitionInfo, locks: Option<LockSet>, run: Cursor): (r: Option<LockSet>)
    ensures LocksGrow(locks, r)
    ensures locks.Some? && Healthy(locks.value) ==>
              forall s :: RunStart(pi, run) <= s < RunEnd(pi, run) ==> Locked(r.value, s)
  {
    if locks.None? then None
    else
      var ls := locks.value;
      var beg, end := RunStart(pi, run), RunEnd(pi, run);
      var r := AddLock(ls, beg, end, true);
      assert Healthy(ls) ==> Healthy(r) && forall s :: Locked(ls, s) || beg <= s < end ==> Locked(r, s) by {
        if Healthy(ls) {
          HealthyAdd(ls, beg, end);
        }
      }
      Some(r)
  }

  /** What the copy loop leaves behind. `extra`: it stopped at a non-empty run with nothing left to write. */
  datatype Copied = Copied(data: seq<byte>, rem: uint64, locks: Option<LockSet>, extra: bool)

  /** The do-while loop over the runs. */
  function CopyRuns(vol: Volume, runs: seq<Cursor>, size: uint64, locks: Option<LockSet>): (r: Outcome<Copied>)
    decreases |runs|
    ensures r.Stop? ==> r.halt == Fatal
    ensures r.Done? ==> |r.value.data| + r.value.rem == size
    ensures r.Done? ==> LocksGrow(locks, r.value.locks)
    ensures r.Done? && r.value.extra ==> r.value.rem == 0
  {
    if |runs| == 0 then Done(Copied([], size, locks, false))
    else
      var run := runs[0];
      if size == 0 && run.length != 0 then Done(Copied([], 0, locks, true))
      else if run.sparse then
        var (d, rem) := ZeroChunks(ClusterSize(vol.pi), 0, run.length, size);
        match CopyRuns(vol, runs[1..], rem, locks)
        case Stop(h) => Stop(h)
        case Done(c) => Done(c.(data := d + c.data))
      else
        var locks' := LockRun(vol.pi, locks, run);
        match ReadChunks(vol, run.cluster, 0, run.length, size)
        case Stop(h) => Stop(h)
        case Done((d, rem)) =>
          match CopyRuns(vol, runs[1..], rem, locks')
          case Stop(h) => Stop(h)
          case Done(c) =>
            LocksGrowTransitive(locks, locks', c.locks);
            Done(c.(data := d + c.data))
  }

  /** One run of a copy that went through every run: the rest is copied from what this run left. */
  lemma CopyStep(vol: Volume, runs: seq<Cursor>, size: uint64, locks: Option<LockSet>) returns (rem: uint64, locks': Option<LockSet>)
    requires |runs| > 0
    requires CopyRuns(vol, runs, size, locks).Done? && !CopyRuns(vol, runs, size, locks).value.extra
    ensures locks' == if runs[0].sparse then locks else LockRun(vol.pi, locks, runs[0])
    ensures CopyRuns(vol, runs[1..], rem, locks').Done? && !CopyRuns(vol, runs[1..], rem, locks').value.extra
    ensures CopyRuns(vol, runs, size, locks).value.locks == CopyRuns(vol, runs[1..], rem, locks').value.locks
  {
    var run := runs[0];
    if run.sparse {
      rem := ZeroChunks(ClusterSize(vol.pi), 0, run.length, size).1;
      locks' := locks;
    } else {
      rem := ReadChunks(vol, run.cluster, 0, run.length, size).value.1;
      locks' := LockRun(vol.pi, locks, run);
    }
  }

  /**
   * When the copy went through every run, the sectors of each non-sparse
   * run are locked afterwards.
   */
  lemma {:induction false} CopyLocksDataRuns(vol: Volume, runs: seq<Cursor>, size: uint64, locks: Option<LockSet>)
    requires locks.Some? && Healthy(locks.value)
    requires CopyRuns(vol, runs, size, locks).Done? && !CopyRuns(vol, runs, size, locks).value.extra
    decreases |runs|
    ensures var ls := CopyRuns(vol, runs, size, locks).value.locks.value;
            forall k, s :: 0 <= k < |runs| && !runs[k].sparse && RunStart(vol.pi, runs[k]) <= s < RunEnd(vol.pi, runs[k]) ==>
              Locked(ls, s)
  {
    if |runs| > 0 {
      var rem, locks' := CopyStep(vol, runs, size, locks);
      var final := CopyRuns(vol, runs[1..], rem, locks').value.locks.value;
      CopyLocksDataRuns(vol, runs[1..], rem, locks');
      forall k, s | 0 <= k < |runs| && !runs[k].sparse && RunStart(vol.pi, runs[k]) <= s < RunEnd(vol.pi, runs[k])
        ensures Locked(final, s)
      {
        if k > 0 {
          assert runs[k] == runs[1..][k - 1];
        }
      }
    }
  }
}
