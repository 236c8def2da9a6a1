/**
 * Decoding inside one MFT record buffer (src/ntfs.c): the bounded attribute
 * walk, resident data location, file-name namespace ranking and the
 * multi-sector fixup check.
 */
module Ntfs {
  import opened Usuals
  import opened Bytes
  import opened Layout
  import Drive

  /** Outcome of an attribute walk. `Loops`: the C loop never terminates. */
  datatype Walk = Found(at: nat) | NotFound | Loops

  /** A header that the walk inspects: its 16 bytes lie before `end` and it is not the end marker. */
  predicate Live(buf: seq<byte>, loc: nat, end: nat)
  {
    loc + AttrHeaderLen < end && AttrType(buf, loc) != RecEnd
  }

  /**
   * ntfs_searchattribute, always called with the end of the cluster buffer as
   * bound. Headers are followed by their `cbAttribute`; with `skip` the first
   * header is stepped over without being compared. A zero length keeps the
   * walk on the same header forever unless that header is returned.
   */
  function Search(buf: seq<byte>, loc: nat, attrType: uint32, end: nat, skip: bool): (w: Walk)
    decreases end - loc, if skip then 1 else 0
    ensures w.Found? ==> loc <= w.at && Live(buf, w.at, end) && AttrType(buf, w.at) == attrType
    ensures !Live(buf, loc, end) ==> w == NotFound
  {
    if !Live(buf, loc, end) then NotFound
    else if !skip && AttrType(buf, loc) == attrType then Found(loc)
    else
      var next := loc + AttrLength(buf, loc);
      if next == loc && !skip then Loops
      else Search(buf, next, attrType, end, false)
  }

  /** ntfs_findattribute: search from the record's first attribute. */
  function FindAttribute(rec: seq<byte>, attrType: uint32): (w: Walk)
    ensures w.Found? ==> OffAttrs(rec) <= w.at && Live(rec, w.at, |rec|) && AttrType(rec, w.at) == attrType
    ensures !Live(rec, OffAttrs(rec), |rec|) ==> w == NotFound
    ensures Live(rec, OffAttrs(rec), |rec|) && AttrType(rec, OffAttrs(rec)) == attrType ==> w == Found(OffAttrs(rec))
  {
    Search(rec, OffAttrs(rec), attrType, |rec|, false)
  }

  /** ntfs_nextattribute: search after the attribute at `at`. */
  function NextAttribute(buf: seq<byte>, at: nat, attrType: uint32): (w: Walk)
    ensures Live(buf, at, |buf|) && AttrLength(buf, at) > 0 ==>
              w == Search(buf, at + AttrLength(buf, at), attrType, |buf|, false)
    ensures Live(buf, at, |buf|) && AttrLength(buf, at) > 0 && w.Found? ==> w.at > at
    ensures Live(buf, at, |buf|) && AttrLength(buf, at) == 0 ==>
              w == (if AttrType(buf, at) == attrType then Found(at) else Loops)
  {
    assert Live(buf, at, |buf|) && AttrLength(buf, at) == 0 ==>
      Search(buf, at, attrType, |buf|, true) == Search(buf, at, attrType, |buf|, false);
    Search(buf, at, attrType, |buf|, true)
  }

  /** The headers a walk from `loc` passes, and whether it ends on a zero-length one. */
  datatype Chain = Chain(headers: seq<nat>, looped: bool)

  function HeaderChain(buf: seq<byte>, loc: nat, end: nat): (c: Chain)
    decreases end - loc
    ensures forall k :: 0 <= k < |c.headers| ==> loc <= c.headers[k] < end
  {
    if !Live(buf, loc, end) then Chain([], false)
    else
      var next := loc + AttrLength(buf, loc);
      if next == loc then Chain([loc], true)
      else
        var rest := HeaderChain(buf, next, end);
        Chain([loc] + rest.headers, rest.looped)
  }

  /** Reference outcome: the first header in `hs` of type `t`; otherwise how the chain ended. */
  function FirstOfType(buf: seq<byte>, hs: seq<nat>, looped: bool, t: uint32): (w: Walk)
  {
    if |hs| == 0 then (if looped then Loops else NotFound)
    else if AttrType(buf, hs[0]) == t then Found(hs[0])
    else FirstOfType(buf, hs[1..], looped, t)
  }

  /** FirstOfType returns a matching element with no match before it, or reports none. */
  lemma {:induction false} FirstOfTypeSpec(buf: seq<byte>, hs: seq<nat>, looped: bool, t: uint32)
    ensures var w := FirstOfType(buf, hs, looped, t);
            && (w.Found? <==> exists k :: 0 <= k < |hs| && AttrType(buf, hs[k]) == t)
            && (w.Found? ==> exists k :: 0 <= k < |hs| && hs[k] == w.at &&
                               forall j :: 0 <= j <= k ==> (AttrType(buf, hs[j]) == t <==> j == k))
            && (w.Loops? <==> !w.Found? && looped)
  {
    if |hs| > 0 && AttrType(buf, hs[0]) != t {
      var rest := hs[1..];
      FirstOfTypeSpec(buf, rest, looped, t);
      var w := FirstOfType(buf, rest, looped, t);
      if w.Found? {
        var k :| 0 <= k < |rest| && rest[k] == w.at &&
                 forall j :: 0 <= j <= k ==> (AttrType(buf, rest[j]) == t <==> j == k);
        assert hs[k + 1] == w.at;
        forall j | 0 <= j <= k + 1
          ensures AttrType(buf, hs[j]) == t <==> j == k + 1
        {
          if j > 0 { assert hs[j] == rest[j - 1]; }
        }
      } else {
        forall k | 0 <= k < |hs| ensures AttrType(buf, hs[k]) != t {
          if k > 0 { assert hs[k] == rest[k - 1]; }
        }
      }
    } else if |hs| > 0 {
      assert AttrType(buf, hs[0]) == t;
    }
  }

  /**
   * The walk returns the first header of the chain whose type matches; with
   * none, it fails normally, or loops exactly when the chain ends on a
   * zero-length header.
   */
  lemma {:induction false} SearchFindsFirstMatch(buf: seq<byte>, loc: nat, t: uint32, end: nat)
    decreases end - loc
    ensures var c := HeaderChain(buf, loc, end);
            Search(buf, loc, t, end, false) == FirstOfType(buf, c.headers, c.looped, t)
  {
    if Live(buf, loc, end) && AttrType(buf, loc) != t && AttrLength(buf, loc) > 0 {
      var next := loc + AttrLength(buf, loc);
      var rest := HeaderChain(buf, next, end);
      assert HeaderChain(buf, loc, end).headers[1..] == rest.headers;
      SearchFindsFirstMatch(buf, next, t, end);
    }
  }

  /**
   * ntfs_getattributedata: the resident data of the attribute at `at`, or
   * nothing when its data offset points past `end`.
   */
  function GetAttributeData(buf: seq<byte>, at: nat, end: nat): (r: Option<nat>)
    ensures r.None? <==> at + ResDataOffset(buf, at) > end
    ensures r.Some? ==> at <= r.value <= end && r.value - at == ResDataOffset(buf, at)
  {
    var data := at + ResDataOffset(buf, at);
    if data > end then None else Some(data)
  }

  // File-name namespaces

  /**
   * ntfs_isbetternamespace(cur, cand): whether a file-name attribute in
   * namespace `cand` should replace the one chosen so far in `cur`.
   */
  predicate IsBetterNamespace(cur: byte, cand: byte)
  {
    || cur == NameSpacePosix
    || (cur == NameSpaceDos && (cand == NameSpaceWin32 || cand == NameSpaceWinDos))
    || (cur == NameSpaceWinDos && cand == NameSpaceWin32)
  }

  /** Preference order of the four namespaces: WIN32 best, then WIN32+DOS, DOS, POSIX. */
  function NamespaceRank(ns: byte): nat
    requires ns <= NameSpaceWinDos
  {
    if ns == NameSpaceWin32 then 0
    else if ns == NameSpaceWinDos then 1
    else if ns == NameSpaceDos then 2
    else 3
  }

  /**
   * For the four defined codes, a candidate wins exactly when the current
   * choice is POSIX or the candidate ranks strictly better; a WIN32 choice is
   * never displaced, and POSIX yields even to another POSIX name.
   */
  lemma BetterNamespaceIsRank(cur: byte, cand: byte)
    requires cur <= NameSpaceWinDos && cand <= NameSpaceWinDos
    ensures IsBetterNamespace(cur, cand) <==>
              cur == NameSpacePosix || NamespaceRank(cand) < NamespaceRank(cur)
    ensures cur == NameSpaceWin32 ==> !IsBetterNamespace(cur, cand)
  {
  }

  /** An undefined current code is never displaced, any candidate displaces POSIX. */
  lemma BetterNamespaceUnknownCodes(cur: byte, cand: byte)
    ensures cur > NameSpaceWinDos ==> !IsBetterNamespace(cur, cand)
    ensures cur == NameSpacePosix ==> IsBetterNamespace(cur, cand)
  {
  }

  // Multi-sector fixups

  /** Offset of the last two bytes of sector `i` of a record. */
  function Footer(i: nat): nat
  {
    i * Drive.SectorSize + Drive.SectorSize - 2
  }

  /**
   * Number of sectors checked: size/512 stored in a byte, capped by
   * cwUpdSeq - 1. The comparison is done in int, so cwUpdSeq = 0 caps it at
   * -1, which the byte turns into 255.
   */
  function FixupCount(size: nat, cw: uint16): (n: byte)
    ensures cw == 0 ==> n == 255
    ensures cw >= 1 && size / Drive.SectorSize < 0x100 ==>
              n == if cw - 1 < size / Drive.SectorSize then cw - 1 else size / Drive.SectorSize
  {
    var numSectors := (size / Drive.SectorSize) % 0x100;
    if cw - 1 < numSectors then (cw - 1) % 0x100 else numSectors
  }

  datatype Fixup = Fixup(ok: bool, rec: seq<byte>)

  /**
   * ntfs_dofixups on a record buffer (its size is the buffer's length). A
   * footer outside the buffer, which only cwUpdSeq = 0 can reach, counts as
   * a mismatch here; the C code would read and write past the buffer.
   */
  function DoFixups(rec: seq<byte>): (f: Fixup)
    ensures |f.rec| == |rec|
    ensures forall j :: 0 <= j < |rec| && !InFooter(j, FixupCount(|rec|, CwUpdSeq(rec))) ==> f.rec[j] == rec[j]
    ensures FixupCount(|rec|, CwUpdSeq(rec)) == 0 ==> f == Fixup(true, rec)
  {
    FixupFrom(rec, 0, FixupCount(|rec|, CwUpdSeq(rec)), OffUpdSeq(rec))
  }

  /** Sectors `i` .. `n - 1` of the fixup loop; `off` is offUpdSeq. */
  function FixupFrom(rec: seq<byte>, i: nat, n: nat, off: nat): (f: Fixup)
    decreases n - i
    ensures |f.rec| == |rec|
    ensures forall j :: 0 <= j < |rec| && !InFooter(j, n) ==> f.rec[j] == rec[j]
  {
    if i >= n then Fixup(true, rec)
    else if Footer(i) + 2 > |rec| then Fixup(false, rec)
    else if U16At(rec, Footer(i)) != U16At(rec, off) then Fixup(false, rec)
    else
      FooterInFooter(i, n);
      FixupFrom(Put16(rec, Footer(i), U16At(rec, off + 2 * (i + 1))), i + 1, n, off)
  }

  /** Byte `j` belongs to the footer of one of the first `n` sectors. */
  predicate InFooter(j: int, n: nat)
  {
    0 <= j && j / Drive.SectorSize < n && j % Drive.SectorSize >= Drive.SectorSize - 2
  }

  /** Both bytes of sector i's footer are footer bytes of the first n sectors. */
  lemma FooterInFooter(i: nat, n: nat)
    requires i < n
    ensures InFooter(Footer(i), n) && InFooter(Footer(i) + 1, n)
  {
    assert Footer(i) == i * Drive.SectorSize + (Drive.SectorSize - 2);
    assert Footer(i) / Drive.SectorSize == i && Footer(i) % Drive.SectorSize == Drive.SectorSize - 2;
    assert (Footer(i) + 1) / Drive.SectorSize == i && (Footer(i) + 1) % Drive.SectorSize == Drive.SectorSize - 1;
  }

  /**
   * The update sequence array (words 0 .. n at `off`) shares no byte with the
   * footers of the first `n` sectors, and those footers lie in the buffer. Real
   * records keep the array in the header, far from any footer.
   */
  predicate ArrayClearOfFooters(rec: seq<byte>, n: nat, off: nat)
  {
    && n * Drive.SectorSize <= |rec|
    && forall j {:trigger InFooter(j, n)} :: off <= j < off + 2 * (n + 1) ==> !InFooter(j, n)
  }

  /** `cur` is `orig` with the footers of sectors 0 .. k-1 replaced by words 1 .. k. */
  predicate PatchedUpTo(orig: seq<byte>, cur: seq<byte>, k: nat, off: nat)
  {
    && |cur| == |orig|
    && (forall i :: 0 <= i < k ==> U16At(cur, Footer(i)) == U16At(orig, off + 2 * (i + 1)))
    && (forall j :: 0 <= j < |orig| && !InFooter(j, k) ==> cur[j] == orig[j])
  }

  lemma FooterBytes(i: nat, n: nat)
    requires i < n
    ensures InFooter(Footer(i), n) && InFooter(Footer(i) + 1, n)
    ensures forall j :: Footer(i) <= j < Footer(i) + 2 ==> j / Drive.SectorSize == i
  {
  }

  /** Two bytes outside every patched footer still read as the original word. */
  lemma WordUnpatched(orig: seq<byte>, cur: seq<byte>, k: nat, off: nat, p: int)
    requires PatchedUpTo(orig, cur, k, off)
    requires !InFooter(p, k) && !InFooter(p + 1, k)
    ensures U16At(cur, p) == U16At(orig, p)
  {
  }

  /** Patching footer k keeps the earlier patched footers and the bytes outside footers. */
  lemma PatchStep(orig: seq<byte>, cur: seq<byte>, k: nat, off: nat)
    requires PatchedUpTo(orig, cur, k, off)
    requires Footer(k) + 2 <= |cur|
    ensures PatchedUpTo(orig, Put16(cur, Footer(k), U16At(orig, off + 2 * (k + 1))), k + 1, off)
  {
    var v := U16At(orig, off + 2 * (k + 1));
    var next := Put16(cur, Footer(k), v);
    assert forall i :: 0 <= i < k + 1 ==> U16At(next, Footer(i)) == U16At(orig, off + 2 * (i + 1));
    forall j | 0 <= j < |orig| && !InFooter(j, k + 1)
      ensures next[j] == orig[j]
    {
      assert !InFooter(j, k);
      if Footer(k) <= j < Footer(k) + 2 {
        FooterBytes(k, k + 1);
      }
    }
  }

  /** The positions the fixup loop touches at sector i are outside the footers patched so far. */
  lemma FixupPositions(len: nat, i: nat, n: nat, off: nat)
    requires i < n && n * Drive.SectorSize <= len
    requires forall j {:trigger InFooter(j, n)} :: off <= j < off + 2 * (n + 1) ==> !InFooter(j, n)
    ensures Footer(i) + 2 <= len
    ensures !InFooter(Footer(i), i) && !InFooter(Footer(i) + 1, i)
    ensures !InFooter(off, i) && !InFooter(off + 1, i)
    ensures !InFooter(off + 2 * (i + 1), i) && !InFooter(off + 2 * (i + 1) + 1, i)
  {
    assert !InFooter(off, n) && !InFooter(off + 1, n);
    assert !InFooter(off + 2 * (i + 1), n) && !InFooter(off + 2 * (i + 1) + 1, n);
  }

  /** The first sector in i .. n-1 whose footer differs from word 0, or n. */
  function FirstMismatch(rec: seq<byte>, i: nat, n: nat, off: nat): (m: nat)
    requires i <= n
    decreases n - i
    ensures i <= m <= n
  {
    if i == n then n
    else if U16At(rec, Footer(i)) != U16At(rec, off) then i
    else FirstMismatch(rec, i + 1, n, off)
  }

  lemma {:induction false} FirstMismatchSpec(rec: seq<byte>, i: nat, n: nat, off: nat)
    requires i <= n
    decreases n - i
    ensures var m := FirstMismatch(rec, i, n, off);
            && (forall k :: i <= k < m ==> U16At(rec, Footer(k)) == U16At(rec, off))
            && (m < n ==> U16At(rec, Footer(m)) != U16At(rec, off))
  {
    if i < n && U16At(rec, Footer(i)) == U16At(rec, off) {
      FirstMismatchSpec(rec, i + 1, n, off);
    }
  }

  /**
   * One iteration of the fixup loop on a record patched up to sector i: on
   * a match it patches footer i and goes on with `next`, otherwise it stops.
   */
  lemma FixupStep(orig: seq<byte>, cur: seq<byte>, i: nat, n: nat, off: nat) returns (next: seq<byte>)
    requires i < n && ArrayClearOfFooters(orig, n, off) && PatchedUpTo(orig, cur, i, off)
    ensures PatchedUpTo(orig, next, i + 1, off)
    ensures U16At(orig, Footer(i)) == U16At(orig, off) ==> FixupFrom(cur, i, n, off) == FixupFrom(next, i + 1, n, off)
    ensures U16At(orig, Footer(i)) != U16At(orig, off) ==> FixupFrom(cur, i, n, off) == Fixup(false, cur)
  {
    var p := off + 2 * (i + 1);
    FixupPositions(|orig|, i, n, off);
    WordUnpatched(orig, cur, i, off, Footer(i));
    WordUnpatched(orig, cur, i, off, off);
    WordUnpatched(orig, cur, i, off, p);
    PatchStep(orig, cur, i, off);
    next := Put16(cur, Footer(i), U16At(orig, p));
  }

  /**
   * The fixup loop from sector i: it stops at the first sector whose footer
   * does not hold update-sequence word 0, leaving the footers before it
   * patched (the C code does not undo them); with no such sector it succeeds
   * with every footer patched.
   */
  lemma {:induction false} FixupOutcome(orig: seq<byte>, cur: seq<byte>, i: nat, n: nat, off: nat) returns (f: Fixup)
    requires i <= n && ArrayClearOfFooters(orig, n, off) && PatchedUpTo(orig, cur, i, off)
    decreases n - i, 1
    ensures f == FixupFrom(cur, i, n, off)
    ensures var m := FirstMismatch(orig, i, n, off);
            f.ok == (m == n) && PatchedUpTo(orig, f.rec, m, off)
  {
    if i == n {
      f := Fixup(true, cur);
    } else if U16At(orig, Footer(i)) == U16At(orig, off) {
      f := FixupOutcomeMatch(orig, cur, i, n, off);
    } else {
      var _ := FixupStep(orig, cur, i, n, off);
      f := Fixup(false, cur);
    }
  }

  /** Sector i holds word 0: the loop patches it and continues. */
  lemma {:induction false} FixupOutcomeMatch(orig: seq<byte>, cur: seq<byte>, i: nat, n: nat, off: nat) returns (f: Fixup)
    requires i < n && ArrayClearOfFooters(orig, n, off) && PatchedUpTo(orig, cur, i, off)
    requires U16At(orig, Footer(i)) == U16At(orig, off)
    decreases n - i, 0
    ensures f == FixupFrom(cur, i, n, off)
    ensures var m := FirstMismatch(orig, i, n, off);
            f.ok == (m == n) && PatchedUpTo(orig, f.rec, m, off)
  {
    var next := FixupStep(orig, cur, i, n, off);
    f := FixupOutcome(orig, next, i + 1, n, off);
  }

  /**
   * ntfs_dofixups on a record whose update sequence array is clear of the
   * checked footers: true exactly when every checked sector ends in word 0;
   * then sector i's footer holds word i + 1 and no other byte changed. On a
   * mismatch at sector m, the sectors before m are left patched.
   */
  lemma DoFixupsSpec(rec: seq<byte>)
    requires ArrayClearOfFooters(rec, FixupCount(|rec|, CwUpdSeq(rec)), OffUpdSeq(rec))
    ensures var n := FixupCount(|rec|, CwUpdSeq(rec));
            var off := OffUpdSeq(rec);
            var f := DoFixups(rec);
            && (f.ok <==> forall k :: 0 <= k < n ==> U16At(rec, Footer(k)) == U16At(rec, off))
            && (f.ok ==> PatchedUpTo(rec, f.rec, n, off))
            && (!f.ok ==> exists m :: 0 <= m < n && U16At(rec, Footer(m)) != U16At(rec, off) &&
                            PatchedUpTo(rec, f.rec, m, off))
  {
    var n := FixupCount(|rec|, CwUpdSeq(rec));
    var off := OffUpdSeq(rec);
    var f := FixupOutcome(rec, rec, 0, n, off);
    FirstMismatchSpec(rec, 0, n, off);
  }
}
