/**
 * Little-endian integers in byte buffers.
 *
 * The C code reads multi-byte fields by casting pointers into a cluster
 * buffer. A read outside the buffer is undefined behaviour there; here every
 * byte outside the buffer reads as zero (`At`), which keeps every decoder
 * total. Writes stay inside the buffer.
 */
module Bytes {
  import opened Usuals

  function Pow256(n: nat): (r: nat)
    ensures r >= 1
  {
    if n == 0 then 1 else 0x100 * Pow256(n - 1)
  }

  lemma {:induction false} Pow256Monotone(a: nat, b: nat)
    requires a <= b
    ensures Pow256(a) <= Pow256(b)
  {
    if a < b {
      Pow256Monotone(a, b - 1);
    }
  }

  /** The byte at `i`, or 0 outside the buffer. */
  function At(buf: seq<byte>, i: int): byte
  {
    if 0 <= i < |buf| then buf[i] else 0
  }

  /** `n` bytes starting at `off`, zero-filled past the end of the buffer. */
  function Slice(buf: seq<byte>, off: int, n: nat): (r: seq<byte>)
    ensures |r| == n
    ensures forall k :: 0 <= k < n ==> r[k] == At(buf, off + k)
    ensures 0 <= off && off + n <= |buf| ==> r == buf[off..off + n]
  {
    var r := seq<byte>(n, k requires 0 <= k < n => At(buf, off + k));
    r
  }

  /** The unsigned little-endian value of `s` (s[0] is least significant). */
  function LE(s: seq<byte>): nat
  {
    if |s| == 0 then 0 else s[0] + 0x100 * LE(s[1..])
  }

  lemma {:induction false} LEBound(s: seq<byte>)
    ensures LE(s) < Pow256(|s|)
  {
    if |s| > 0 {
      LEBound(s[1..]);
    }
  }

  /** Splitting off the most significant byte. */
  lemma {:induction false} LELast(s: seq<byte>)
    requires |s| > 0
    ensures LE(s) == LE(s[..|s| - 1]) + Pow256(|s| - 1) * s[|s| - 1]
  {
    if |s| > 1 {
      var t, n := s[1..], |s|;
      LELast(t);
      assert t[..n - 2] == s[..n - 1][1..];
      assert t[n - 2] == s[n - 1];
      var lo, p, hi := LE(t[..n - 2]), Pow256(n - 2), s[n - 1];
      assert LE(s) == s[0] + 0x100 * (lo + p * hi);
      assert LE(s[..n - 1]) == s[0] + 0x100 * lo;
      ScaleSum(lo, p, hi);
    }
  }

  /** The `n`-byte little-endian encoding of `v`. */
  function EncodeLE(v: nat, n: nat): (r: seq<byte>)
    requires v < Pow256(n)
    ensures |r| == n
  {
    if n == 0 then [] else [v % 0x100] + EncodeLE(v / 0x100, n - 1)
  }

  lemma {:induction false} LEOfEncode(v: nat, n: nat)
    requires v < Pow256(n)
    ensures LE(EncodeLE(v, n)) == v
  {
    if n > 0 {
      LEOfEncode(v / 0x100, n - 1);
      assert EncodeLE(v, n)[1..] == EncodeLE(v / 0x100, n - 1);
    }
  }

  lemma {:induction false} EncodeOfLE(s: seq<byte>)
    ensures LE(s) < Pow256(|s|)
    ensures EncodeLE(LE(s), |s|) == s
  {
    LEBound(s);
    if |s| > 0 {
      EncodeOfLE(s[1..]);
      assert LE(s) % 0x100 == s[0];
      assert LE(s) / 0x100 == LE(s[1..]);
    }
  }

  /** The `w`-byte unsigned little-endian field at `off`: the reference reading of any field. */
  function Field(buf: seq<byte>, off: int, w: nat): (r: nat)
    ensures r < Pow256(w)
  {
    LEBound(Slice(buf, off, w));
    LE(Slice(buf, off, w))
  }

  /** Splitting a little-endian number into its low `k` and high bytes. */
  lemma {:induction false} LESplit(s: seq<byte>, k: nat)
    requires k <= |s|
    ensures LE(s) == LE(s[..k]) + Pow256(k) * LE(s[k..])
  {
    if k > 0 {
      var t := s[1..];
      LESplit(t, k - 1);
      assert t[..k - 1] == s[..k][1..];
      assert t[k - 1..] == s[k..];
      var lo, hi, p := LE(t[..k - 1]), LE(s[k..]), Pow256(k - 1);
      assert LE(s[..k]) == s[0] + 0x100 * lo;
      assert LE(s) == s[0] + 0x100 * (lo + p * hi);
      ScaleSum(lo, p, hi);
    }
  }

  lemma ScaleSum(lo: int, p: int, hi: int)
    ensures 0x100 * (lo + p * hi) == 0x100 * lo + (0x100 * p) * hi
  {
  }

  /** A field of `a + b` bytes is its low `a`-byte field plus its high `b`-byte field. */
  lemma FieldSplit(buf: seq<byte>, off: int, a: nat, b: nat)
    ensures Field(buf, off, a + b) == Field(buf, off, a) + Pow256(a) * Field(buf, off + a, b)
  {
    var s := Slice(buf, off, a + b);
    LESplit(s, a);
    assert s[..a] == Slice(buf, off, a);
    assert s[a..] == Slice(buf, off + a, b);
  }

  /**
   * The `w`-byte little-endian number at `off`, read byte by byte. The
   * fixed-width readers are built on it; FieldsAreLittleEndian ties it to the
   * reference reading.
   */
  function LEAt(buf: seq<byte>, off: int, w: nat): (r: nat)
    decreases w
    ensures r < Pow256(w)
  {
    if w == 0 then 0 else At(buf, off) + 0x100 * LEAt(buf, off + 1, w - 1)
  }

  /** `e` sits in `buf` at position `p`: reading there with `At` gives its bytes. */
  predicate HoldsAt(buf: seq<byte>, p: int, e: seq<byte>)
    decreases |e|
  {
    |e| == 0 || (At(buf, p) == e[0] && HoldsAt(buf, p + 1, e[1..]))
  }

  /** A concatenation sits at `p` exactly when its two parts sit one after the other. */
  lemma {:induction false} HoldsAppend(buf: seq<byte>, p: int, a: seq<byte>, b: seq<byte>)
    decreases |a|
    ensures HoldsAt(buf, p, a + b) <==> HoldsAt(buf, p, a) && HoldsAt(buf, p + |a|, b)
  {
    if |a| == 0 {
      assert a + b == b;
    } else {
      assert (a + b)[1..] == a[1..] + b;
      HoldsAppend(buf, p + 1, a[1..], b);
    }
  }

  lemma {:induction false} HoldsByte(buf: seq<byte>, p: int, e: seq<byte>, k: nat)
    requires HoldsAt(buf, p, e) && k < |e|
    decreases k
    ensures At(buf, p + k) == e[k]
  {
    if k > 0 {
      HoldsByte(buf, p + 1, e[1..], k - 1);
    }
  }

  /** Every buffer holds its own tail. */
  lemma {:induction false} HoldsTail(buf: seq<byte>, p: nat)
    requires p <= |buf|
    decreases |buf| - p
    ensures HoldsAt(buf, p, buf[p..])
  {
    if p < |buf| {
      assert buf[p..][1..] == buf[p + 1..];
      HoldsTail(buf, p + 1);
    }
  }

  /** The encoding read back where it sits, whatever surrounds it. */
  lemma {:induction false} LEAtOfEncode(buf: seq<byte>, p: int, v: nat, w: nat)
    requires v < Pow256(w) && HoldsAt(buf, p, EncodeLE(v, w))
    decreases w
    ensures LEAt(buf, p, w) == v
  {
    if w > 0 {
      assert EncodeLE(v, w)[1..] == EncodeLE(v / 0x100, w - 1);
      LEAtOfEncode(buf, p + 1, v / 0x100, w - 1);
    }
  }

  lemma {:induction false} LEAtIsField(buf: seq<byte>, off: int, w: nat)
    decreases w
    ensures LEAt(buf, off, w) == Field(buf, off, w)
  {
    if w > 0 {
      LEAtIsField(buf, off + 1, w - 1);
      FieldSplit(buf, off, 1, w - 1);
      var s := Slice(buf, off, 1);
      assert s[1..] == [];
    }
  }

  function U8At(buf: seq<byte>, off: int): byte
  {
    At(buf, off)
  }

  function U16At(buf: seq<byte>, off: int): uint16
  {
    assert Pow256(2) == U16_LIMIT;
    LEAt(buf, off, 2)
  }

  function U32At(buf: seq<byte>, off: int): uint32
  {
    assert Pow256(4) == U32_LIMIT;
    LEAt(buf, off, 4)
  }

  function U64At(buf: seq<byte>, off: int): uint64
  {
    assert Pow256(8) == U64_LIMIT;
    LEAt(buf, off, 8)
  }

  /** A 16-bit field is its low byte plus 256 times its high byte. */
  lemma U16AtBytes(buf: seq<byte>, off: int)
    ensures U16At(buf, off) == At(buf, off) + 0x100 * At(buf, off + 1)
  {
    assert LEAt(buf, off + 2, 0) == 0;
  }

  /** Each reader returns the unsigned little-endian value of its bytes. */
  lemma FieldsAreLittleEndian(buf: seq<byte>, off: int)
    ensures U8At(buf, off) == Field(buf, off, 1)
    ensures U16At(buf, off) == Field(buf, off, 2)
    ensures U32At(buf, off) == Field(buf, off, 4)
    ensures U64At(buf, off) == Field(buf, off, 8)
  {
    LEAtIsField(buf, off, 1);
    LEAtIsField(buf, off, 2);
    LEAtIsField(buf, off, 4);
    LEAtIsField(buf, off, 8);
    assert LEAt(buf, off + 1, 0) == 0;
  }

  /** Overwrite `bytes` at `off`; the buffer keeps its length. */
  function Put(buf: seq<byte>, off: nat, bytes: seq<byte>): (r: seq<byte>)
    requires off + |bytes| <= |buf|
    ensures |r| == |buf|
    ensures r[off..off + |bytes|] == bytes
    ensures forall i :: 0 <= i < |buf| && !(off <= i < off + |bytes|) ==> r[i] == buf[i]
  {
    buf[..off] + bytes + buf[off + |bytes|..]
  }

  /** Store a 16-bit value little-endian at `off`. */
  function Put16(buf: seq<byte>, off: nat, v: uint16): (r: seq<byte>)
    requires off + 2 <= |buf|
    ensures |r| == |buf|
    ensures U16At(r, off) == v
    ensures forall i :: 0 <= i < |buf| && i != off && i != off + 1 ==> r[i] == buf[i]
  {
    var r := buf[off := v % 0x100][off + 1 := v / 0x100];
    U16AtBytes(r, off);
    r
  }
}
