/**
 * The MFT map (src/ntfsx.c, ntfsx_mftmap_*): the extents of the $MFT file,
 * as a list of blocks of consecutive MFT records, built from the data runs
 * of $MFT's DATA attribute and used to find the sector of MFT record `i`.
 */
module MftMap {
  import opened Usuals
  import opened Drive
  import opened DataRuns
  import Layout

  /** Sectors per MFT record (kNTFS_RecordLen / kSectorSize). */
  const RecordSectors: nat := 2

  /** A block of consecutive MFT records: first sector on the drive and length in records. */
  datatype Block = Block(firstSector: uint64, length: uint64)

  /** Records in the first `k` blocks. */
  function Prefix(bs: seq<Block>, k: nat): nat
    requires k <= |bs|
  {
    if k == 0 then 0 else Prefix(bs, k - 1) + bs[k - 1].length
  }

  /** Records in all blocks, before any 64-bit wrap-around. */
  function Total(bs: seq<Block>): nat
  {
    Prefix(bs, |bs|)
  }

  /** ntfsx_mftmap_length: the 64-bit sum of the block lengths. */
  method Length(bs: seq<Block>) returns (len: uint64)
    ensures len == Wrap64(Total(bs))
    ensures Total(bs) < U64_LIMIT ==> len == Total(bs)
  {
    len := 0;
    var i := 0;
    while i < |bs|
      invariant i <= |bs|
      invariant len == Wrap64(Prefix(bs, i))
    {
      WrapAdd(Prefix(bs, i), bs[i].length);
      len := Wrap64(len + bs[i].length);
      i := i + 1;
    }
  }

  /** Wrapping the running sum at every step is wrapping it once at the end. */
  lemma WrapAdd(x: nat, y: nat)
    ensures Wrap64(Wrap64(x) + y) == Wrap64(x + y)
  {
    var q := x / U64_LIMIT;
    assert x == q * U64_LIMIT + Wrap64(x);
    assert x + y == q * U64_LIMIT + (Wrap64(x) + y);
  }

  /** The sector of record `i` of block `b`, or the sentinel when it lies past the partition. */
  function Place(pi: PartitionInfo, b: Block, i: nat): (s: uint64)
    ensures s != InvalidSector ==> s < pi.end
    ensures i * RecordSectors + b.firstSector < pi.end ==> s == i * RecordSectors + b.firstSector
  {
    var s := Wrap64(i * RecordSectors + b.firstSector);
    if s >= pi.end then InvalidSector else s
  }

  /** ntfsx_mftmap_sectorforindex: walk the blocks, subtracting the lengths of those passed. */
  function SectorForIndex(pi: PartitionInfo, bs: seq<Block>, index: uint64): (s: uint64)
    ensures s != InvalidSector ==> s < pi.end
  {
    if |bs| == 0 then InvalidSector
    else if index >= bs[0].length then SectorForIndex(pi, bs[1..], index - bs[0].length)
    else Place(pi, bs[0], index)
  }

  lemma {:induction false} PrefixFront(bs: seq<Block>, k: nat)
    requires 0 < |bs| && k < |bs|
    ensures Prefix(bs, k + 1) == bs[0].length + Prefix(bs[1..], k)
  {
    if k > 0 {
      PrefixFront(bs, k - 1);
    }
  }

  /**
   * Record `index` is found in the block whose range of records, counted
   * from the start of the map, contains it, at its offset in that block.
   */
  lemma {:induction false} SectorForIndexInBlock(pi: PartitionInfo, bs: seq<Block>, index: uint64, k: nat)
    requires k < |bs| && Prefix(bs, k) <= index < Prefix(bs, k + 1)
    ensures SectorForIndex(pi, bs, index) == Place(pi, bs[k], index - Prefix(bs, k))
  {
    PrefixFront(bs, k);
    if k > 0 {
      PrefixFront(bs, k - 1);
      assert index >= bs[0].length;
      SectorForIndexInBlock(pi, bs[1..], index - bs[0].length, k - 1);
      assert bs[1..][k - 1] == bs[k];
    }
  }

  /** An index at or past the total number of records has no sector. */
  lemma {:induction false} SectorForIndexBeyond(pi: PartitionInfo, bs: seq<Block>, index: uint64)
    requires index >= Total(bs)
    ensures SectorForIndex(pi, bs, index) == InvalidSector
  {
    if |bs| > 0 {
      PrefixFront(bs, |bs| - 1);
      assert Total(bs) == bs[0].length + Total(bs[1..]);
      SectorForIndexBeyond(pi, bs[1..], index - bs[0].length);
    }
  }

  /** MFT records per cluster times the run length, in 64-bit arithmetic. */
  function RunRecords(pi: PartitionInfo, run: Cursor): uint64
  {
    Wrap64(run.length * ((pi.cluster * SectorSize) / Layout.RecordLen))
  }

  /** The absolute first sector of a run, in 64-bit arithmetic. */
  function RunSector(pi: PartitionInfo, run: Cursor): uint64
  {
    Wrap64(run.cluster * pi.cluster + pi.first)
  }

  /** A run becomes a block unless it holds no record or starts past the partition. */
  predicate Kept(pi: PartitionInfo, run: Cursor)
  {
    RunRecords(pi, run) != 0 && RunSector(pi, run) < pi.end
  }

  /**
   * The block list built by ntfsx_mftmap_load from the runs of $MFT's DATA
   * attribute, or None when a sparse run makes it give up.
   */
  function FromRuns(pi: PartitionInfo, runs: seq<Cursor>): (r: Option<seq<Block>>)
    ensures r.Some? ==> |r.value| <= |runs|
    ensures r.Some? ==> forall k :: 0 <= k < |r.value| ==>
              r.value[k].length > 0 && r.value[k].firstSector < pi.end
  {
    if |runs| == 0 then Some([])
    else if runs[0].sparse then None
    else
      match FromRuns(pi, runs[1..])
      case None => None
      case Some(rest) =>
        if Kept(pi, runs[0]) then Some([Block(RunSector(pi, runs[0]), RunRecords(pi, runs[0]))] + rest)
        else Some(rest)
  }

  /** Loading fails exactly when some run is sparse. */
  lemma {:induction false} FromRunsFailsIffSparse(pi: PartitionInfo, runs: seq<Cursor>)
    ensures FromRuns(pi, runs).None? <==> exists k :: 0 <= k < |runs| && runs[k].sparse
  {
    if |runs| > 0 && !runs[0].sparse {
      FromRunsFailsIffSparse(pi, runs[1..]);
      if exists k :: 0 <= k < |runs| && runs[k].sparse {
        var k :| 0 <= k < |runs| && runs[k].sparse;
        assert runs[1..][k - 1] == runs[k];
      }
    }
  }

  /** Without sparse runs, the blocks are exactly the kept runs, in order. */
  lemma {:induction false} FromRunsKeepsRuns(pi: PartitionInfo, runs: seq<Cursor>)
    requires FromRuns(pi, runs).Some?
    ensures |FromRuns(pi, runs).value| == |KeptRuns(pi, runs)|
    ensures forall k :: 0 <= k < |KeptRuns(pi, runs)| ==>
              FromRuns(pi, runs).value[k] ==
                Block(RunSector(pi, KeptRuns(pi, runs)[k]), RunRecords(pi, KeptRuns(pi, runs)[k]))
  {
    if |runs| > 0 {
      FromRunsKeepsRuns(pi, runs[1..]);
    }
  }

  /** The runs that become blocks: a reference filter. */
  function KeptRuns(pi: PartitionInfo, runs: seq<Cursor>): (ks: seq<Cursor>)
    ensures forall k :: 0 <= k < |ks| ==> Kept(pi, ks[k]) && ks[k] in runs
  {
    if |runs| == 0 then []
    else if Kept(pi, runs[0]) then [runs[0]] + KeptRuns(pi, runs[1..])
    else KeptRuns(pi, runs[1..])
  }
}
