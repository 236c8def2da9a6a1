/**
 * UCS-2 to UTF-8 and back (src/unicode.c): the 1-, 2- and 3-byte forms of
 * section 3 of RFC 3629, applied to each 16-bit unit on its own (a surrogate
 * pair becomes two 3-byte sequences), and a lenient decoder that turns any
 * byte it cannot place into '?'.
 */
module Unicode {
  import opened Usuals

  /** The UTF-8 form of one 16-bit unit. */
  function EncodeUnit(u: uint16): (e: seq<byte>)
    ensures |e| == (if u <= 0x7F then 1 else if u <= 0x7FF then 2 else 3)
    ensures u <= 0x7F ==> e == [u]
    ensures 0x80 <= u ==> e[0] >= 0xC0 && forall k :: 1 <= k < |e| ==> 0x80 <= e[k] < 0xC0
    ensures e[0] < 0xF0
  {
    if u <= 0x7F then [u]
    else if u <= 0x7FF then [0xC0 + u / 0x40, 0x80 + u % 0x40]
    else [0xE0 + u / 0x1000, 0x80 + (u / 0x40) % 0x40, 0x80 + u % 0x40]
  }

  /** The UTF-8 text of a run of units, without the terminating NUL. */
  function Encode(units: seq<uint16>): (e: seq<byte>)
    ensures |units| <= |e| <= 3 * |units|
    ensures |e| == |units| <==> forall k :: 0 <= k < |units| ==> units[k] < 0x80
  {
    if |units| == 0 then [] else EncodeUnit(units[0]) + Encode(units[1..])
  }

  lemma {:induction false} EncodeAppend(units: seq<uint16>, u: uint16)
    ensures Encode(units + [u]) == Encode(units) + EncodeUnit(u)
  {
    if |units| == 0 {
      assert units + [u] == [u];
    } else {
      var v := units + [u];
      assert v[0] == units[0] && v[1..] == units[1..] + [u];
      EncodeAppend(units[1..], u);
      Associative(EncodeUnit(units[0]), Encode(units[1..]), EncodeUnit(u));
    }
  }

  lemma Associative(a: seq<byte>, b: seq<byte>, c: seq<byte>)
    ensures a + (b + c) == (a + b) + c
  {
  }

  // Buffer handling of unicode_transcode16to8

  /** Where the output stands: bytes written, bytes allocated, and whether every write so far fit. */
  datatype Alloc = Alloc(pos: nat, size: nat, inBounds: bool)

  /** The first allocation: 1.25 times the unit count, plus one. */
  function InitialSize(len: nat): nat
  {
    len + len / 4 + 1
  }

  /**
   * The allocation bookkeeping as written: before each unit, if fewer than
   * five bytes are free the buffer grows once by len / 2 + 1, which for a
   * short input is not enough for a 3-byte form and the final NUL.
   */
  function AllocAsWritten(len: nat, units: seq<uint16>, a: Alloc): (r: Alloc)
    ensures r.pos == a.pos + |Encode(units)|
    ensures r.inBounds ==> a.inBounds
  {
    if |units| == 0 then a.(inBounds := a.inBounds && a.pos < a.size)
    else
      var size := if a.pos + 4 >= a.size then a.size + len / 2 + 1 else a.size;
      var pos := a.pos + |EncodeUnit(units[0])|;
      AllocAsWritten(len, units[1..], Alloc(pos, size, a.inBounds && pos <= size))
  }

  /** Whether the as-written transcoder stays inside its buffer on `units`. */
  predicate FitsAsWritten(units: seq<uint16>)
  {
    AllocAsWritten(|units|, units, Alloc(0, InitialSize(|units|), true)).inBounds
  }

  /** A single unit at or above 0x800: three bytes and the NUL go into a 3-byte buffer. */
  lemma OneWideUnitOverflows()
    ensures !FitsAsWritten([0x800])
    ensures |Encode([0x800]) + [0]| == 4 && InitialSize(1) + 1 / 2 + 1 == 3
  {
    assert [0x800 as uint16][1..] == [];
  }

  /**
   * unicode_transcode16to8 with the growth check repeated until at least
   * five bytes are free: returns the NUL-terminated UTF-8 text and the size
   * of the buffer holding it.
   */
  method Transcode16To8(units: seq<uint16>) returns (out: seq<byte>, size: nat)
    ensures out == Encode(units) + [0]
    ensures |out| <= size
  {
    var len := |units|;
    size := InitialSize(len);
    out := [];
    var i := 0;
    while i < len
      invariant 0 <= i <= len
      invariant out == Encode(units[..i])
      invariant |out| < size
    {
      while |out| + 4 >= size
        invariant |out| < size
        decreases |out| + 4 - size
      {
        size := size + len / 2 + 1;
      }
      EncodeAppend(units[..i], units[i]);
      assert units[..i + 1] == units[..i] + [units[i]];
      out := out + EncodeUnit(units[i]);
      i := i + 1;
    }
    assert units[..len] == units;
    out := out + [0];
  }

  // unicode_transcode8to16

  /** A continuation byte, 10xxxxxx. */
  predicate Cont(c: byte)
  {
    c / 0x40 == 2
  }

  /**
   * One decoding step at the front of `b`: the unit produced and the bytes
   * consumed. The 4-, 3- and 2-byte forms are tried in that order, each only
   * when that many bytes remain; then a plain ASCII byte; else '?'.
   */
  function DecodeOne(b: seq<byte>): (r: (nat, nat))
    requires |b| > 0
    ensures 1 <= r.1 <= 4 && r.1 <= |b|
  {
    if |b| >= 4 && b[0] / 8 == 0x1E && Cont(b[1]) && Cont(b[2]) && Cont(b[3]) then
      ((b[0] as nat % 8) * 0x40000 + (b[1] as nat % 0x40) * 0x1000 + (b[2] as nat % 0x40) * 0x40 + b[3] as nat % 0x40, 4)
    else if |b| >= 3 && b[0] / 0x10 == 0xE && Cont(b[1]) && Cont(b[2]) then
      ((b[0] as nat % 0x10) * 0x1000 + (b[1] as nat % 0x40) * 0x40 + b[2] as nat % 0x40, 3)
    else if |b| >= 2 && b[0] / 0x20 == 6 && Cont(b[1]) then
      ((b[0] as nat % 0x20) * 0x40 + b[1] as nat % 0x40, 2)
    else if b[0] < 0x80 then (b[0], 1)
    else ('?' as nat, 1)
  }

  /** The units decoded from `b`, without the terminating NUL the C function appends. */
  function Decode(b: seq<byte>): (r: seq<nat>)
    decreases |b|
    ensures |r| <= |b|
  {
    if |b| == 0 then []
    else
      var (u, n) := DecodeOne(b);
      [u] + Decode(b[n..])
  }

  /** The byte masks of the C decoder are the top-bit tests used here. */
  lemma MasksAreTopBits(c: bv8)
    ensures (c & 0xF8 == 0xF0) <==> (c as int) / 8 == 0x1E
    ensures (c & 0xF0 == 0xE0) <==> (c as int) / 0x10 == 0xE
    ensures (c & 0xE0 == 0xC0) <==> (c as int) / 0x20 == 6
    ensures (c & 0xC0 == 0x80) <==> (c as int) / 0x40 == 2
    ensures (c & 0x80 == 0) <==> (c as int) < 0x80
  {
  }

  lemma ThreeByteValue(u: nat)
    requires u < 0x10000
    ensures (u / 0x1000) * 0x1000 + ((u / 0x40) % 0x40) * 0x40 + u % 0x40 == u
  {
  }

  lemma TwoByteValue(u: nat)
    requires u < 0x800
    ensures (u / 0x40) * 0x40 + u % 0x40 == u
  {
  }

  /** An encoded unit at the front of any input decodes back to that unit. */
  lemma DecodeOneOfEncodeUnit(u: uint16, rest: seq<byte>)
    ensures DecodeOne(EncodeUnit(u) + rest) == (u as nat, |EncodeUnit(u)|)
  {
    var e := EncodeUnit(u);
    var b := e + rest;
    if u > 0x7FF {
      assert b[0] == e[0] && b[1] == e[1] && b[2] == e[2];
      DecodeThreeBytes(b, u);
    } else if u > 0x7F {
      assert b[0] == e[0] && b[1] == e[1];
      DecodeTwoBytes(b, u);
    } else {
      assert b[0] == e[0];
    }
  }

  lemma DecodeThreeBytes(b: seq<byte>, u: uint16)
    requires 0x7FF < u && |b| >= 3
    requires b[0] == 0xE0 + u / 0x1000 && b[1] == 0x80 + (u / 0x40) % 0x40 && b[2] == 0x80 + u % 0x40
    ensures DecodeOne(b) == (u as nat, 3)
  {
    assert b[0] % 0x10 == u / 0x1000;
    ThreeByteValue(u as nat);
  }

  lemma DecodeTwoBytes(b: seq<byte>, u: uint16)
    requires 0x7F < u <= 0x7FF && |b| >= 2
    requires b[0] == 0xC0 + u / 0x40 && b[1] == 0x80 + u % 0x40
    ensures DecodeOne(b) == (u as nat, 2)
  {
    assert b[0] % 0x20 == u / 0x40;
    TwoByteValue(u as nat);
  }

  /** Decoding inverts encoding for every sequence of 16-bit units. */
  lemma {:induction false} DecodeEncode(units: seq<uint16>)
    ensures Decode(Encode(units)) == seq(|units|, k requires 0 <= k < |units| => units[k] as nat)
  {
    if |units| > 0 {
      var e := EncodeUnit(units[0]);
      var rest := Encode(units[1..]);
      DecodeOneOfEncodeUnit(units[0], rest);
      assert (e + rest)[|e|..] == rest;
      DecodeEncode(units[1..]);
    }
  }
}
