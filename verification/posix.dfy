/**
 * NTFS file time to `struct timeval` (src/posix.c). An NTFS time counts
 * 100-nanosecond intervals since 1 January 1601.
 */
module Posix {
  import opened Usuals

  /** The Unix epoch as an NTFS file time. */
  const UnixEpoch: nat := 116444736000000000
  const Billion: nat := 1_000_000_000
  /** NTFS ticks per second and per microsecond. */
  const TicksPerSecond: nat := 10_000_000
  const TicksPerMicro: nat := 10

  datatype TimeVal = TimeVal(sec: int, usec: int)

  /**
   * ntfs_maketvs as written: times before the epoch become zero; the 32-bit
   * clamp branch compares `sizeof` (a byte count) with 32 and never runs;
   * otherwise the time is split at 10^9 ticks, and the epoch is never
   * subtracted.
   */
  function MakeTvsAsWritten(ft: uint64): (tv: TimeVal)
    ensures ft < UnixEpoch ==> tv == TimeVal(0, 0)
    ensures ft >= UnixEpoch ==> 0 <= tv.usec < 1_000_000 && tv.sec >= 0
    ensures ft >= UnixEpoch ==>
      tv.sec * Billion + tv.usec * 1000 <= ft < tv.sec * Billion + tv.usec * 1000 + 1000
  {
    if ft < UnixEpoch then TimeVal(0, 0)
    else
      var mod := ft % Billion;
      TimeVal((ft - mod) / Billion, mod / 1000)
  }

  /** Later file times never give earlier seconds. */
  lemma MakeTvsAsWrittenMonotone(a: uint64, b: uint64)
    requires a <= b
    ensures MakeTvsAsWritten(a).sec <= MakeTvsAsWritten(b).sec
  {
  }

  /** The epoch itself comes out as 116444736 seconds instead of 0. */
  lemma EpochIsNotZero()
    ensures MakeTvsAsWritten(UnixEpoch as uint64) == TimeVal(116444736, 0)
    ensures MakeTvs(UnixEpoch as uint64) == TimeVal(0, 0)
  {
  }

  /**
   * The conversion as evidently intended: seconds and microseconds since the
   * Unix epoch, counted in 100-nanosecond ticks.
   */
  function MakeTvs(ft: uint64): (tv: TimeVal)
    ensures ft < UnixEpoch ==> tv == TimeVal(0, 0)
    ensures ft >= UnixEpoch ==> 0 <= tv.usec < 1_000_000 && tv.sec >= 0
    ensures ft >= UnixEpoch ==>
      UnixEpoch + tv.sec * TicksPerSecond + tv.usec * TicksPerMicro <= ft <
      UnixEpoch + tv.sec * TicksPerSecond + tv.usec * TicksPerMicro + TicksPerMicro
  {
    if ft < UnixEpoch then TimeVal(0, 0)
    else
      var d := ft - UnixEpoch;
      TimeVal(d / TicksPerSecond, (d % TicksPerSecond) / TicksPerMicro)
  }

  /** The NTFS time of a `timeval`: its seconds and microseconds can be read back from the ticks after the epoch. */
  function FileTime(tv: TimeVal): (ft: int)
    ensures 0 <= tv.usec < 1_000_000 ==>
      (ft - UnixEpoch) / TicksPerSecond == tv.sec && (ft - UnixEpoch) % TicksPerSecond == tv.usec * TicksPerMicro
    ensures tv.sec >= 0 && tv.usec >= 0 ==> ft >= UnixEpoch
  {
    UnixEpoch + tv.sec * TicksPerSecond + tv.usec * TicksPerMicro
  }

  /** Converting the file time of a representable `timeval` gives it back. */
  lemma MakeTvsOfFileTime(tv: TimeVal)
    requires tv.sec >= 0 && 0 <= tv.usec < 1_000_000
    requires FileTime(tv) < U64_LIMIT
    ensures MakeTvs(FileTime(tv) as uint64) == tv
  {
    var d := FileTime(tv) - UnixEpoch;
    assert (d % TicksPerSecond) / TicksPerMicro == tv.usec;
  }

  lemma MakeTvsMonotone(a: uint64, b: uint64)
    requires a <= b
    ensures MakeTvs(a).sec <= MakeTvs(b).sec
  {
  }
}
