/**
 * The portability helpers of src/compat.c used by the recovery: `itow`
 * (integer to wide string, used to number renamed duplicates) and
 * `fixprogname` (the program name shown in messages).
 */
module Compat {
  import opened Usuals

  const INT32_MIN: int := -0x8000_0000
  const INT32_MAX: int := 0x7FFF_FFFF
  type int32 = x: int | INT32_MIN <= x <= INT32_MAX

  /** C's `/` on int: the quotient truncated toward zero. */
  function TruncDiv(a: int, b: int): (q: int)
    requires b > 0
    ensures a >= 0 ==> q == a / b
    ensures -a >= 0 ==> q == -((-a) / b)
  {
    if a >= 0 then a / b else -((-a) / b)
  }

  /** C's `%` on int: takes the sign of the dividend. */
  function TruncMod(a: int, b: int): (m: int)
    requires b > 0
    ensures a == b * TruncDiv(a, b) + m
    ensures -b < m < b
    ensures a >= 0 ==> m == a % b
  {
    a - b * TruncDiv(a, b)
  }

  /** Dividing a positive number by a radix of at least two shrinks it. */
  lemma DivShrinks(n: int, radix: int)
    requires n > 0 && radix >= 2
    ensures 0 <= n / radix < n
    ensures 0 <= n % radix < radix
    ensures n == (n / radix) * radix + n % radix
    ensures n < radix ==> n / radix == 0 && n % radix == n
  {
  }

  /** The character for digit value `d`: '0' + d below ten, else 'a' + d - 10 (negative values go below '0'). */
  function DigitChar(d: int): char
    requires -36 < d < 36
  {
    if d < 10 then (0x30 + d) as char else (0x61 + d - 10) as char
  }

  /** Digit characters least significant first, from C's truncating remainder. */
  function DigitsLsb(val: int, radix: int): (ds: seq<char>)
    requires 2 <= radix <= 36
    decreases if val < 0 then -val else val
  {
    if val == 0 then []
    else if val > 0 then
      DivShrinks(val, radix);
      [DigitChar(TruncMod(val, radix))] + DigitsLsb(TruncDiv(val, radix), radix)
    else
      DivShrinks(-val, radix);
      [DigitChar(TruncMod(val, radix))] + DigitsLsb(TruncDiv(val, radix), radix)
  }

  function Reverse<T>(s: seq<T>): (r: seq<T>)
    ensures |r| == |s|
    ensures forall k :: 0 <= k < |s| ==> r[k] == s[|s| - 1 - k]
  {
    if |s| == 0 then [] else Reverse(s[1..]) + [s[0]]
  }

  /**
   * itow as written. For a negative decimal value the '-' goes to the first
   * slot, but the digits are written from that same slot, so the first digit
   * overwrites it and is left out of the reversal; the digits themselves come
   * from negative remainders.
   */
  function ItowAsWritten(val: int32, radix: int): (s: seq<char>)
    requires 2 <= radix <= 36
    ensures |s| >= 1
    ensures val != 0 ==> |s| == |DigitsLsb(val, radix)|
  {
    if val == 0 then "0"
    else
      var ds := DigitsLsb(val, radix);
      if radix == 10 && val < 0 then [ds[0]] + Reverse(ds[1..]) else Reverse(ds)
  }

  /** itow(-5, 10) yields "+": '0' + (-5) replaces the sign. */
  lemma NegativeItowLosesSign()
    ensures ItowAsWritten(-5, 10) == "+"
    ensures Itow(-5, 10) == "-5"
  {
    assert DigitsLsb(-5, 10) == ['+'];
    assert Unsigned(5, 10) == "5";
  }

  /** The digits of `n` in `radix`, most significant first; "0" for zero. */
  function Unsigned(n: nat, radix: int): (s: seq<char>)
    requires 2 <= radix <= 36
    ensures |s| >= 1
    ensures forall k :: 0 <= k < |s| ==> IsDigit(s[k], radix)
  {
    if n < radix then [DigitChar(n)]
    else
      DivShrinks(n, radix);
      Unsigned(n / radix, radix) + [DigitChar(n % radix)]
  }

  lemma DigitValueOfChar(d: int)
    requires 0 <= d < 36
    ensures DigitValue(DigitChar(d)) == d
  {
  }

  /** A character that stands for a digit value below `radix`. */
  predicate IsDigit(c: char, radix: int)
  {
    ('0' <= c <= '9' && (c as int) - 0x30 < radix) || ('a' <= c <= 'z' && (c as int) - 0x61 + 10 < radix)
  }

  function DigitValue(c: char): int
  {
    if '0' <= c <= '9' then (c as int) - 0x30 else (c as int) - 0x61 + 10
  }

  /** The value of a digit string, most significant first. */
  function Value(s: seq<char>, radix: int): int
  {
    if |s| == 0 then 0 else Value(s[..|s| - 1], radix) * radix + DigitValue(s[|s| - 1])
  }

  /** Reading the digits back gives the number. */
  lemma {:induction false} ValueOfUnsigned(n: nat, radix: int)
    requires 2 <= radix <= 36
    ensures Value(Unsigned(n, radix), radix) == n
  {
    var q, d := n / radix, n % radix;
    if n >= radix {
      var s, hi := Unsigned(n, radix), Unsigned(q, radix);
      DivShrinks(n, radix);
      DigitValueOfChar(d);
      ValueOfUnsigned(q, radix);
      assert s == hi + [DigitChar(d)];
      assert s[..|s| - 1] == hi;
      assert Value(s, radix) == q * radix + d;
    } else {
      DigitValueOfChar(n);
      assert [DigitChar(n)][..0] == [];
    }
  }

  /**
   * itow as evidently intended: a '-' and the digits of the magnitude for a
   * negative decimal value; a negative value in another radix is written as
   * its 32-bit two's complement.
   */
  function Itow(val: int32, radix: int): (s: seq<char>)
    requires 2 <= radix <= 36
    ensures |s| >= 1
    ensures s[0] == '-' <==> val < 0 && radix == 10
    ensures forall k :: (if s[0] == '-' then 1 else 0) <= k < |s| ==> IsDigit(s[k], radix)
  {
    if val < 0 && radix == 10 then "-" + Unsigned(-(val as int), 10)
    else if val < 0 then Unsigned(val + U32_LIMIT, radix)
    else Unsigned(val, radix)
  }

  /** A decimal itow reads back as the value it was given, sign included. */
  lemma ItowDecimalRoundTrip(val: int32)
    ensures var s := Itow(val, 10);
            if val < 0 then s[0] == '-' && Value(s[1..], 10) == -(val as int) else Value(s, 10) == val
  {
    if val < 0 {
      ValueOfUnsigned(-(val as int), 10);
      assert Itow(val, 10)[1..] == Unsigned(-(val as int), 10);
    } else {
      ValueOfUnsigned(val, 10);
    }
  }

  /** In every radix the text reads back as the value, a negative non-decimal one as its 32-bit two's complement. */
  lemma ItowReadsBack(val: int32, radix: int)
    requires 2 <= radix <= 36
    ensures var s := Itow(val, radix);
            if val < 0 && radix == 10 then Value(s[1..], 10) == -(val as int)
            else Value(s, radix) == if val < 0 then val + U32_LIMIT else val as int
  {
    if val < 0 && radix == 10 {
      ItowDecimalRoundTrip(val);
    } else if val < 0 {
      ValueOfUnsigned(val + U32_LIMIT, radix);
    } else {
      ValueOfUnsigned(val as int, radix);
    }
  }

  lemma {:induction false} ReverseDigitsLsb(n: nat, radix: int)
    requires 2 <= radix <= 36 && n > 0
    ensures Reverse(DigitsLsb(n, radix)) == Unsigned(n, radix)
  {
    var q, d := n / radix, n % radix;
    DivShrinks(n, radix);
    assert DigitsLsb(n, radix) == [DigitChar(d)] + DigitsLsb(q, radix);
    if n >= radix {
      ReverseDigitsLsb(q, radix);
      assert Unsigned(n, radix) == Unsigned(q, radix) + [DigitChar(d)];
    } else {
      assert DigitsLsb(q, radix) == [];
    }
  }

  /** For a value that is not negative the code as written is already right. */
  lemma ItowAgreesOnNonNegative(val: int32, radix: int)
    requires 2 <= radix <= 36 && val >= 0
    ensures ItowAsWritten(val, radix) == Itow(val, radix)
  {
    if val > 0 {
      ReverseDigitsLsb(val, radix);
    }
  }

  // fixprogname

  /** strrchr: the index of the last `c` in `s`. */
  function LastIndex(s: string, c: char): (r: Option<nat>)
    ensures r.Some? ==> r.value < |s| && s[r.value] == c && forall j :: r.value < j < |s| ==> s[j] != c
    ensures r.None? ==> forall j :: 0 <= j < |s| ==> s[j] != c
  {
    if |s| == 0 then None
    else if s[|s| - 1] == c then Some(|s| - 1)
    else LastIndex(s[..|s| - 1], c)
  }

  predicate IsSeparator(c: char)
  {
    c == '\\' || c == '/'
  }

  const ProgNameMax: nat := 255

  /** Where the base name starts: just past the last '\\' or '/', or at 0. */
  function BaseStart(path: string): (k: nat)
    ensures k <= |path|
    ensures k == 0 || IsSeparator(path[k - 1])
    ensures forall j :: k <= j < |path| ==> !IsSeparator(path[j])
  {
    var back, fwd := LastIndex(path, '\\'), LastIndex(path, '/');
    var sep := if back.None? then fwd else if fwd.None? then back else if back.value > fwd.value then back else fwd;
    if sep.Some? then sep.value + 1 else 0
  }

  /** `j` is the last '.' of `path`. */
  predicate LastDot(path: string, j: nat)
  {
    forall k :: j < k < |path| ==> path[k] != '.'
  }

  /** End `stop` of the name, held to at most 255 characters past the base name. */
  function CapName(path: string, stop: nat): (c: nat)
    requires BaseStart(path) <= stop <= |path|
    ensures BaseStart(path) <= c <= stop && c - BaseStart(path) <= ProgNameMax
    ensures c == stop || c - BaseStart(path) == ProgNameMax
  {
    if stop - BaseStart(path) > ProgNameMax then BaseStart(path) + ProgNameMax else stop
  }

  /**
   * The name fixprogname derives from the program path: the base name, cut
   * at its last '.' when that is not its first character, and at most 255
   * characters long.
   */
  function ProgName(path: string): (r: string)
    ensures |r| <= ProgNameMax
    ensures BaseStart(path) + |r| <= |path| && r == path[BaseStart(path)..BaseStart(path) + |r|]
    ensures var cut := BaseStart(path) + |r|;
            |r| < ProgNameMax && cut < |path| ==>
              |r| > 0 && path[cut] == '.' && forall j :: cut < j < |path| ==> path[j] != '.'
    ensures (forall j :: BaseStart(path) < j < |path| ==> path[j] != '.') ==>
              r == path[BaseStart(path)..CapName(path, |path|)]
    ensures forall j :: BaseStart(path) < j < |path| && path[j] == '.' && LastDot(path, j) ==>
              r == path[BaseStart(path)..CapName(path, j)]
  {
    var beg := BaseStart(path);
    var dot := LastIndex(path, '.');
    var stop := if dot.Some? && dot.value > beg then dot.value else |path|;
    var stop' := if stop - beg > ProgNameMax then beg + ProgNameMax else stop;
    path[beg..stop']
  }

  /** A base name without an inner dot and short enough comes out whole. */
  lemma ProgNamePlain(path: string)
    requires |path| <= ProgNameMax
    requires forall j :: 0 <= j < |path| ==> !IsSeparator(path[j]) && (j > 0 ==> path[j] != '.')
    ensures ProgName(path) == path
  {
  }

  /** fixprogname: the name is derived once; later calls keep it. */
  function FixProgName(progname: Option<string>, path: string): (r: Option<string>)
    ensures r.Some?
    ensures progname.Some? ==> r == progname
  {
    if progname.None? then Some(ProgName(path)) else progname
  }

  lemma FixProgNameOnce(path: string, later: string)
    ensures FixProgName(FixProgName(None, path), later) == Some(ProgName(path))
  {
  }
}
