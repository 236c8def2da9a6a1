/**
 * Data-run decoding (src/ntfsx.c, ntfsx_datarun_first / ntfsx_datarun_next).
 *
 * A non-resident attribute lists its extents as packed runs. Each run is a
 * header byte whose low nibble is the width of the length field and whose
 * high nibble is the width of the offset field, then the little-endian
 * length in clusters, then a signed little-endian cluster offset relative to
 * the previous run. A zero header byte ends the list; an offset of zero marks
 * a sparse run.
 */
module DataRuns {
  import opened Usuals
  import opened Bytes

  /** The decoder's state: the current run and the position of the next header. */
  datatype Cursor = Cursor(cluster: uint64, length: uint64, sparse: bool, pos: nat)

  /** A header the decoder accepts: nonzero, length width 1..8, offset width 0..8. */
  predicate ValidHeader(h: byte)
  {
    h != 0 && 1 <= h % 0x10 <= 8 && h / 0x10 <= 8
  }

  /**
   * The `w`-byte offset at `p`, sign-extended from the top bit of
   * `signByte`: the C code fills the 64-bit offset with ones or zeros first
   * and then copies the field's bytes over its low end.
   */
  function SignExtend(buf: seq<byte>, p: int, w: nat, signByte: byte): int
  {
    if signByte >= 0x80 then LEAt(buf, p, w) - Pow256(w) else LEAt(buf, p, w)
  }

  /** The cursor after a run of `length` clusters at relative `offset`; zero means sparse. */
  function Apply(cluster: uint64, length: uint64, offset: int, pos: nat): (c: Cursor)
    ensures c.sparse <==> offset == 0
    ensures c.sparse ==> c.cluster == cluster
    ensures !c.sparse ==> (c.cluster - (cluster + offset)) % U64_LIMIT == 0
  {
    if offset == 0 then Cursor(cluster, length, true, pos)
    else Cursor(Wrap64(cluster + offset), length, false, pos)
  }

  /** The run length: at most eight bytes, so it fits the 64-bit field. */
  function RunLength(buf: seq<byte>, p: int, w: nat): (n: uint64)
    requires w <= 8
  {
    Pow256Monotone(w, 8);
    assert Pow256(8) == U64_LIMIT;
    LEAt(buf, p, w)
  }

  /**
   * ntfsx_datarun_next as written. With a zero-width offset it still takes
   * the sign from the byte just before the (empty) offset field, which is the
   * last byte of the length, so a length whose top byte has its high bit set
   * turns an intended sparse run into a step of -1 cluster.
   */
  function NextAsWritten(buf: seq<byte>, c: Cursor): (r: Option<Cursor>)
    ensures r.None? <==> !ValidHeader(At(buf, c.pos))
    ensures r.Some? ==> c.pos < |buf|
    ensures r.Some? ==> r.value.pos == c.pos + 1 + At(buf, c.pos) % 0x10 + At(buf, c.pos) / 0x10
    ensures r.Some? && At(buf, c.pos) / 0x10 == 0 ==>
              (r.value.sparse <==> At(buf, c.pos + At(buf, c.pos) % 0x10) < 0x80)
  {
    var h := At(buf, c.pos);
    if !ValidHeader(h) then None
    else
      var lenW, offW := h % 0x10, h / 0x10;
      var p := c.pos + 1 + lenW;
      var offset := SignExtend(buf, p, offW, At(buf, p + offW - 1));
      Some(Apply(c.cluster, RunLength(buf, c.pos + 1, lenW), offset, p + offW))
  }

  /**
   * The decoder with a zero-width offset read as zero (a sparse run), which
   * is what the rest of the model uses. It fails without changing anything
   * on a zero header or a field width out of range.
   */
  function Next(buf: seq<byte>, c: Cursor): (r: Option<Cursor>)
    ensures r.None? <==> !ValidHeader(At(buf, c.pos))
    ensures r.Some? ==> c.pos < |buf|
    ensures r.Some? ==> r.value.pos == c.pos + 1 + At(buf, c.pos) % 0x10 + At(buf, c.pos) / 0x10
    ensures r.Some? ==> r.value.length < Pow256(At(buf, c.pos) % 0x10)
  {
    var h := At(buf, c.pos);
    if !ValidHeader(h) then None
    else
      var lenW, offW := h % 0x10, h / 0x10;
      Some(Apply(c.cluster, RunLength(buf, c.pos + 1, lenW), RunOffset(buf, c.pos, h), c.pos + 1 + lenW + offW))
  }

  /** The offset field of the run whose header `h` is at `pos`; zero when it is empty. */
  function RunOffset(buf: seq<byte>, pos: int, h: byte): int
  {
    var lenW, offW := h % 0x10, h / 0x10;
    var p := pos + 1 + lenW;
    if offW == 0 then 0 else SignExtend(buf, p, offW, At(buf, p + offW - 1))
  }

  /** ntfsx_datarun_first: start from cluster 0 at the first header. */
  function First(buf: seq<byte>, start: nat): Option<Cursor>
  {
    Next(buf, Cursor(0, 0, false, start))
  }

  /** The two decoders differ only on a zero-width offset after a length whose top bit is set. */
  lemma NextAsWrittenAgrees(buf: seq<byte>, c: Cursor)
    ensures var h := At(buf, c.pos);
            (!ValidHeader(h) || h / 0x10 > 0 || At(buf, c.pos + h % 0x10) < 0x80) ==>
              NextAsWritten(buf, c) == Next(buf, c)
  {
  }

  /** The run "01 80": one byte of length 0x80, no offset. */
  lemma SparseRunMisread()
    ensures Next([0x01, 0x80, 0x00], Cursor(5, 0, false, 0)) == Some(Cursor(5, 0x80, true, 2))
    ensures NextAsWritten([0x01, 0x80, 0x00], Cursor(5, 0, false, 0)) == Some(Cursor(4, 0x80, false, 2))
  {
    var buf: seq<byte> := [0x01, 0x80, 0x00];
    assert LEAt(buf, 1, 1) == 0x80 by {
      assert LEAt(buf, 2, 0) == 0;
    }
    assert LEAt(buf, 2, 0) == 0;
  }

  /**
   * Every run from cursor `c` to the end marker (or the first malformed
   * header); RunsAreChain shows it is the chain of Next from `c`.
   */
  function Runs(buf: seq<byte>, c: Cursor): (r: seq<Cursor>)
    decreases |buf| - c.pos
    ensures |r| == 0 <==> Next(buf, c).None?
    ensures |r| > 0 ==> Some(r[0]) == Next(buf, c)
  {
    match Next(buf, c)
    case None => []
    case Some(n) => [n] + Runs(buf, n)
  }

  /** Walking the run list with First and then Next until it fails. */
  function AllRuns(buf: seq<byte>, start: nat): (r: seq<Cursor>)
    ensures |r| == 0 <==> First(buf, start).None?
    ensures |r| > 0 ==> Some(r[0]) == First(buf, start)
  {
    Runs(buf, Cursor(0, 0, false, start))
  }

  /** Each run is the decoder's step from the one before, and the last one is followed by no run. */
  lemma {:induction false} RunsAreChain(buf: seq<byte>, c: Cursor)
    decreases |buf| - c.pos
    ensures var r := Runs(buf, c);
            (|r| > 0 ==> Next(buf, r[|r| - 1]).None?) &&
            forall k :: 0 < k < |r| ==> Next(buf, r[k - 1]) == Some(r[k])
  {
    match Next(buf, c)
    case None =>
    case Some(n) =>
      RunsAreChain(buf, n);
      var rest := Runs(buf, n);
      assert Runs(buf, c) == [n] + rest;
      assert forall j :: 1 <= j < |rest| + 1 ==> ([n] + rest)[j] == rest[j - 1];
  }

  /** The same walk with the decoder as written. */
  function RunsAsWritten(buf: seq<byte>, c: Cursor): (r: seq<Cursor>)
    decreases |buf| - c.pos
  {
    match NextAsWritten(buf, c)
    case None => []
    case Some(n) => [n] + RunsAsWritten(buf, n)
  }

  function AllRunsAsWritten(buf: seq<byte>, start: nat): seq<Cursor>
  {
    RunsAsWritten(buf, Cursor(0, 0, false, start))
  }

  /** The header at `c` is not a zero-width offset after a length whose top byte has its high bit set. */
  predicate Unaffected(buf: seq<byte>, c: Cursor)
  {
    var h := At(buf, c.pos);
    !ValidHeader(h) || h / 0x10 > 0 || At(buf, c.pos + h % 0x10) < 0x80
  }

  /** No run of the list from `c` on has the header pattern the two decoders read differently. */
  predicate UnaffectedFrom(buf: seq<byte>, c: Cursor)
    decreases |buf| - c.pos
  {
    Unaffected(buf, c) && (Next(buf, c).Some? ==> UnaffectedFrom(buf, Next(buf, c).value))
  }

  /** On such a list the walk as written yields exactly the runs of the corrected walk. */
  lemma {:induction false} RunsAsWrittenAgree(buf: seq<byte>, c: Cursor)
    requires UnaffectedFrom(buf, c)
    decreases |buf| - c.pos
    ensures RunsAsWritten(buf, c) == Runs(buf, c)
  {
    NextAsWrittenAgrees(buf, c);
    if Next(buf, c).Some? {
      RunsAsWrittenAgree(buf, Next(buf, c).value);
    }
  }

  /** A list holding "01 80" is walked differently: a sparse run as intended, a step back as written. */
  lemma SparseListMisread()
    ensures Runs([0x01, 0x80, 0x00], Cursor(5, 0, false, 0)) == [Cursor(5, 0x80, true, 2)]
    ensures RunsAsWritten([0x01, 0x80, 0x00], Cursor(5, 0, false, 0)) == [Cursor(4, 0x80, false, 2)]
  {
  }

  // Encoding, the partner of the decoder

  /** One run as an encoder would write it: field widths and values. */
  datatype RunSpec = RunSpec(lenW: nat, length: nat, offW: nat, offset: int)

  /** Half the range of a `w`-byte field: the bound of a signed offset. */
  function Half(w: nat): int
  {
    Pow256(w) / 2
  }

  predicate Encodable(s: RunSpec)
  {
    && 1 <= s.lenW <= 8 && s.length < Pow256(s.lenW)
    && s.offW <= 8
    && (s.offW == 0 ==> s.offset == 0)
    && (s.offW > 0 ==> -Half(s.offW) <= s.offset < Half(s.offW))
  }

  predicate AllEncodable(specs: seq<RunSpec>)
  {
    |specs| == 0 || (Encodable(specs[0]) && AllEncodable(specs[1..]))
  }

  /** Two's complement of `v` in `w` bytes. */
  function TwosComplement(v: int, w: nat): (r: nat)
    requires 0 < w && -Half(w) <= v < Half(w)
    ensures r < Pow256(w)
  {
    if v < 0 then v + Pow256(w) else v
  }

  function EncodeRun(s: RunSpec): (e: seq<byte>)
    requires Encodable(s)
    ensures |e| == 1 + s.lenW + s.offW
  {
    var h: byte := s.offW * 0x10 + s.lenW;
    [h] + (EncodeLE(s.length, s.lenW) + OffsetBytes(s))
  }

  /** The offset field: empty for a zero width, else the two's complement. */
  function OffsetBytes(s: RunSpec): (e: seq<byte>)
    requires Encodable(s)
    ensures |e| == s.offW
  {
    if s.offW == 0 then [] else EncodeLE(TwosComplement(s.offset, s.offW), s.offW)
  }

  /** The top byte of a two's complement field has its high bit set exactly for negative values. */
  lemma SignBitOfTwosComplement(v: int, w: nat)
    requires 0 < w && -Half(w) <= v < Half(w)
    ensures var e := EncodeLE(TwosComplement(v, w), w);
            e[w - 1] >= 0x80 <==> v < 0
  {
    var t := TwosComplement(v, w);
    var e := EncodeLE(t, w);
    var q := Pow256(w - 1);
    var top := e[w - 1];
    var low := LE(e[..w - 1]);
    LEOfEncode(t, w);
    LELast(e);
    LEBound(e[..w - 1]);
    assert t == low + q * top;
    assert low < q;
    assert Half(w) == 0x80 * q;
    TopByteSplit(low, q, top);
  }

  /** With low < q, low + q * top reaches 128 * q exactly when top does 128. */
  lemma TopByteSplit(low: nat, q: nat, top: nat)
    requires low < q
    ensures low + q * top >= 0x80 * q <==> top >= 0x80
  {
    if top >= 0x80 {
      assert q * top >= q * 0x80;
    } else {
      assert q * top <= q * 0x7F;
    }
  }

  lemma HeaderNibbles(hi: nat, lo: nat)
    requires lo < 0x10
    ensures (hi * 0x10 + lo) % 0x10 == lo && (hi * 0x10 + lo) / 0x10 == hi
  {
  }

  /** Sign extension undoes the two's complement when the sign byte is the field's top byte. */
  lemma SignExtendOfTwos(buf: seq<byte>, p: int, w: nat, v: int)
    requires 0 < w && -Half(w) <= v < Half(w)
    requires LEAt(buf, p, w) == TwosComplement(v, w)
    requires At(buf, p + w - 1) >= 0x80 <==> v < 0
    ensures SignExtend(buf, p, w, At(buf, p + w - 1)) == v
  {
  }

  /** A header and fields that hold the values of `s` decode to the run `s` describes. */
  lemma NextOfFields(buf: seq<byte>, c: Cursor, s: RunSpec)
    requires Encodable(s)
    requires At(buf, c.pos) == s.offW * 0x10 + s.lenW
    requires LEAt(buf, c.pos + 1, s.lenW) == s.length
    requires s.offW > 0 ==> SignExtend(buf, c.pos + 1 + s.lenW, s.offW, At(buf, c.pos + s.lenW + s.offW)) == s.offset
    ensures Pow256(s.lenW) <= U64_LIMIT
    ensures Next(buf, c) == Some(Apply(c.cluster, s.length, s.offset, c.pos + 1 + s.lenW + s.offW))
  {
    Pow256Monotone(s.lenW, 8);
    assert Pow256(8) == U64_LIMIT;
    var h := At(buf, c.pos);
    HeaderNibbles(s.offW, s.lenW);
    assert ValidHeader(h);
    assert RunLength(buf, c.pos + 1, s.lenW) == s.length;
    assert RunOffset(buf, c.pos, h) == s.offset;
  }

  /** The header and the two fields of an encoded run sitting at `p`. */
  lemma EncodeRunParts(buf: seq<byte>, p: int, s: RunSpec)
    requires Encodable(s) && HoldsAt(buf, p, EncodeRun(s))
    ensures At(buf, p) == s.offW * 0x10 + s.lenW
    ensures HoldsAt(buf, p + 1, EncodeLE(s.length, s.lenW))
    ensures HoldsAt(buf, p + 1 + s.lenW, OffsetBytes(s))
  {
    var h: byte := s.offW * 0x10 + s.lenW;
    var len, off := EncodeLE(s.length, s.lenW), OffsetBytes(s);
    HoldsAppend(buf, p, [h], len + off);
    HoldsAppend(buf, p + 1, len, off);
  }

  /** A `w`-byte two's complement field sitting at `q`, read back with its sign. */
  lemma TwosComplementField(buf: seq<byte>, q: int, w: nat, v: int)
    requires 0 < w && -Half(w) <= v < Half(w)
    requires HoldsAt(buf, q, EncodeLE(TwosComplement(v, w), w))
    ensures SignExtend(buf, q, w, At(buf, q + w - 1)) == v
  {
    var t := TwosComplement(v, w);
    LEAtOfEncode(buf, q, t, w);
    HoldsByte(buf, q, EncodeLE(t, w), w - 1);
    SignBitOfTwosComplement(v, w);
    SignExtendOfTwos(buf, q, w, v);
  }

  /** The length field of an encoded run sitting at `p` reads back as its length. */
  lemma LengthOfEncoded(buf: seq<byte>, p: int, s: RunSpec)
    requires Encodable(s) && HoldsAt(buf, p, EncodeRun(s))
    ensures LEAt(buf, p + 1, s.lenW) == s.length
  {
    EncodeRunParts(buf, p, s);
    LEAtOfEncode(buf, p + 1, s.length, s.lenW);
  }

  /** The offset field of an encoded run sitting at `p` reads back as its offset. */
  lemma OffsetOfEncoded(buf: seq<byte>, p: int, s: RunSpec)
    requires Encodable(s) && s.offW > 0 && HoldsAt(buf, p, EncodeRun(s))
    ensures SignExtend(buf, p + 1 + s.lenW, s.offW, At(buf, p + s.lenW + s.offW)) == s.offset
  {
    EncodeRunParts(buf, p, s);
    TwosComplementField(buf, p + 1 + s.lenW, s.offW, s.offset);
  }

  /** An encoded run sitting at the cursor decodes to its fields, whatever surrounds it. */
  lemma HeaderOfEncoded(buf: seq<byte>, p: int, s: RunSpec)
    requires Encodable(s) && HoldsAt(buf, p, EncodeRun(s))
    ensures At(buf, p) == s.offW * 0x10 + s.lenW
  {
  }

  lemma NextOfEncoded(buf: seq<byte>, c: Cursor, s: RunSpec)
    requires Encodable(s) && HoldsAt(buf, c.pos, EncodeRun(s))
    ensures Pow256(s.lenW) <= U64_LIMIT
    ensures Next(buf, c) == Some(Apply(c.cluster, s.length, s.offset, c.pos + 1 + s.lenW + s.offW))
  {
    HeaderOfEncoded(buf, c.pos, s);
    LengthOfEncoded(buf, c.pos, s);
    if s.offW > 0 {
      OffsetOfEncoded(buf, c.pos, s);
    }
    NextOfFields(buf, c, s);
  }

  /** A run list followed by the end marker. */
  function EncodeRuns(specs: seq<RunSpec>): (e: seq<byte>)
    requires AllEncodable(specs)
  {
    if |specs| == 0 then [0] else EncodeRun(specs[0]) + EncodeRuns(specs[1..])
  }

  /** The cursors the decoder should produce for `specs`, starting at `cluster` and `pos`. */
  function Expected(specs: seq<RunSpec>, cluster: uint64, pos: nat): seq<Cursor>
    requires AllEncodable(specs)
  {
    if |specs| == 0 then []
    else
      var s := specs[0];
      Pow256Monotone(s.lenW, 8);
      assert Pow256(8) == U64_LIMIT;
      var c := Apply(cluster, s.length, s.offset, pos + 1 + s.lenW + s.offW);
      [c] + Expected(specs[1..], c.cluster, c.pos)
  }

  lemma ExpectedStep(specs: seq<RunSpec>, cluster: uint64, pos: nat)
    requires AllEncodable(specs)
    requires |specs| > 0
    ensures Pow256(specs[0].lenW) <= U64_LIMIT
    ensures specs[0].length < U64_LIMIT
    ensures var s := specs[0];
            var n := Apply(cluster, s.length, s.offset, pos + 1 + s.lenW + s.offW);
            Expected(specs, cluster, pos) == [n] + Expected(specs[1..], n.cluster, n.pos)
  {
    Pow256Monotone(specs[0].lenW, 8);
    assert Pow256(8) == U64_LIMIT;
  }

  /** One step of Runs on a header that decodes. */
  lemma RunsStep(buf: seq<byte>, c: Cursor, n: Cursor)
    requires Next(buf, c) == Some(n)
    ensures Runs(buf, c) == [n] + Runs(buf, n)
  {
  }

  /** The end marker stops the walk. */
  lemma RunsAtEnd(buf: seq<byte>, c: Cursor)
    requires At(buf, c.pos) == 0
    ensures Runs(buf, c) == []
  {
  }

  /** An encoded list that is not just the end marker starts with its first run. */
  lemma EncodeRunsSplit(buf: seq<byte>, p: int, specs: seq<RunSpec>)
    requires AllEncodable(specs) && |specs| > 0 && HoldsAt(buf, p, EncodeRuns(specs))
    ensures AllEncodable(specs[1..])
    ensures HoldsAt(buf, p, EncodeRun(specs[0]))
    ensures HoldsAt(buf, p + |EncodeRun(specs[0])|, EncodeRuns(specs[1..]))
  {
    HoldsAppend(buf, p, EncodeRun(specs[0]), EncodeRuns(specs[1..]));
  }

  /** One run of an encoded list: the decoder reads it and stops at the rest of the list. */
  lemma DecodedStep(buf: seq<byte>, specs: seq<RunSpec>, c: Cursor) returns (n: Cursor)
    requires AllEncodable(specs) && |specs| > 0 && HoldsAt(buf, c.pos, EncodeRuns(specs))
    ensures AllEncodable(specs[1..]) && HoldsAt(buf, n.pos, EncodeRuns(specs[1..]))
    ensures Pow256(specs[0].lenW) <= U64_LIMIT
    ensures n == Apply(c.cluster, specs[0].length, specs[0].offset, c.pos + 1 + specs[0].lenW + specs[0].offW)
    ensures Next(buf, c) == Some(n)
  {
    var s := specs[0];
    EncodeRunsSplit(buf, c.pos, specs);
    NextOfEncoded(buf, c, s);
    n := Apply(c.cluster, s.length, s.offset, c.pos + 1 + s.lenW + s.offW);
    assert n.pos == c.pos + |EncodeRun(s)|;
  }

  /** One run of an encoded list: the decoder and the expectation take the same step. */
  lemma EncodedStep(buf: seq<byte>, specs: seq<RunSpec>, c: Cursor) returns (n: Cursor)
    requires AllEncodable(specs) && |specs| > 0 && HoldsAt(buf, c.pos, EncodeRuns(specs))
    ensures AllEncodable(specs[1..]) && HoldsAt(buf, n.pos, EncodeRuns(specs[1..]))
    ensures Next(buf, c) == Some(n)
    ensures Expected(specs, c.cluster, c.pos) == [n] + Expected(specs[1..], n.cluster, n.pos)
  {
    n := DecodedStep(buf, specs, c);
    ExpectedStep(specs, c.cluster, c.pos);
  }

  /** Decoding an encoded run list sitting at the cursor returns exactly the encoded runs. */
  lemma {:induction false} RunsOfEncodeRuns(buf: seq<byte>, specs: seq<RunSpec>, c: Cursor)
    requires AllEncodable(specs) && HoldsAt(buf, c.pos, EncodeRuns(specs))
    decreases |specs|
    ensures Runs(buf, c) == Expected(specs, c.cluster, c.pos)
  {
    if |specs| == 0 {
      RunsAtEnd(buf, c);
    } else {
      var n := EncodedStep(buf, specs, c);
      RunsStep(buf, c, n);
      RunsOfEncodeRuns(buf, specs[1..], n);
    }
  }

  /** The round trip from the first header of a buffer. */
  lemma AllRunsOfEncodeRuns(specs: seq<RunSpec>)
    requires AllEncodable(specs)
    ensures AllRuns(EncodeRuns(specs), 0) == Expected(specs, 0, 0)
  {
    var buf := EncodeRuns(specs);
    HoldsTail(buf, 0);
    assert buf[0..] == buf;
    RunsOfEncodeRuns(buf, specs, Cursor(0, 0, false, 0));
  }
}
