/**
 * The JavaScript text conversions the snowflake code is built from:
 * `Number.prototype.toString(2)`, `BigInt.prototype.toString()`,
 * `String.prototype.padStart`, `parseInt(s, 2)` and `BigInt('0b' + s)`,
 * stated over strings of characters and unbounded naturals.
 */
module BinaryText {
  import opened Wrappers

  predicate IsBinaryDigit(c: char) { c == '0' || c == '1' }

  predicate IsDecimalDigit(c: char) { '0' <= c <= '9' }

  predicate IsBinary(s: string) { forall i :: 0 <= i < |s| ==> IsBinaryDigit(s[i]) }

  predicate IsDecimal(s: string) { forall i :: 0 <= i < |s| ==> IsDecimalDigit(s[i]) }

  predicate IsZeros(s: string) { forall i :: 0 <= i < |s| ==> s[i] == '0' }

  function Pow2(k: nat): (r: nat)
    ensures r >= 1
  {
    if k == 0 then 1 else 2 * Pow2(k - 1)
  }

  lemma {:induction false} Pow2Monotone(j: nat, k: nat)
    requires j <= k
    ensures Pow2(j) <= Pow2(k)
  {
    if j < k {
      Pow2Monotone(j, k - 1);
    }
  }

  function BitChar(b: nat): char
    requires b < 2
  {
    if b == 0 then '0' else '1'
  }

  function BitOf(c: char): nat
    requires IsBinaryDigit(c)
  {
    if c == '0' then 0 else 1
  }

  /**
   * `n.toString(2)` for a non-negative integer `n`: its binary digits, most
   * significant first, with no leading zero except for "0" itself.
   */
  function ToBinary(n: nat): (r: string)
    ensures IsBinary(r) && |r| >= 1
    ensures n == 0 ==> r == "0"
    ensures n >= 1 ==> r[0] == '1'
  {
    if n < 2 then [BitChar(n)] else ToBinary(n / 2) + [BitChar(n % 2)]
  }

  /**
   * The number a string of binary digits denotes, as `BigInt('0b' + s)` reads
   * it; a string of k digits denotes less than 2^k.
   */
  function BinaryValue(s: string): (v: nat)
    requires IsBinary(s)
    ensures v < Pow2(|s|)
  {
    if s == [] then 0 else 2 * BinaryValue(s[..|s| - 1]) + BitOf(s[|s| - 1])
  }

  /** `n` copies of `c`. */
  function Repeat(c: char, n: nat): (r: string)
    ensures |r| == n
    ensures forall i :: 0 <= i < n ==> r[i] == c
  {
    if n == 0 then [] else Repeat(c, n - 1) + [c]
  }

  /**
   * `s.padStart(targetLength, fill)` with a one-character fill: copies of
   * `fill` are put in front of `s` until it is `targetLength` long; a string
   * that is already that long or longer is returned unchanged, never cut.
   */
  function PadStart(s: string, targetLength: nat, fill: char): (r: string)
    ensures |r| == if |s| < targetLength then targetLength else |s|
    ensures r[|r| - |s|..] == s
    ensures forall i :: 0 <= i < |r| - |s| ==> r[i] == fill
  {
    if |s| >= targetLength then s else Repeat(fill, targetLength - |s|) + s
  }

  /** 2^(j+k) == 2^j * 2^k */
  lemma {:induction false} Pow2Add(j: nat, k: nat)
    ensures Pow2(j + k) == Pow2(j) * Pow2(k)
  {
    if k > 0 {
      Pow2Add(j, k - 1);
      assert Pow2(j + k) == 2 * Pow2(j + (k - 1));
      ShiftStep(Pow2(j), Pow2(k - 1), 0, 0);
    }
  }

  /** Zero-padding decimal text keeps it decimal. */
  lemma PadZerosDecimal(s: string, width: nat)
    requires IsDecimal(s)
    ensures IsDecimal(PadStart(s, width, '0'))
  {
    if |s| < width {
      assert PadStart(s, width, '0') == Repeat('0', width - |s|) + s;
    }
  }

  /** Concatenating binary text shifts the left part up by the width of the right part. */
  lemma {:induction false} BinaryValueAppend(a: string, b: string)
    requires IsBinary(a) && IsBinary(b)
    ensures IsBinary(a + b)
    ensures BinaryValue(a + b) == BinaryValue(a) * Pow2(|b|) + BinaryValue(b)
  {
    if b == [] {
      assert a + b == a;
    } else {
      var b', last := b[..|b| - 1], b[|b| - 1];
      assert b == b' + [last];
      assert a + b == (a + b') + [last];
      assert (a + b)[..|a + b| - 1] == a + b';
      BinaryValueAppend(a, b');
      var x, p := BinaryValue(a), Pow2(|b'|);
      assert BinaryValue(a + b) == 2 * BinaryValue(a + b') + BitOf(last);
      assert BinaryValue(b) == 2 * BinaryValue(b') + BitOf(last);
      assert Pow2(|b|) == 2 * p;
      ShiftStep(x, p, BinaryValue(b'), BitOf(last));
    }
  }

  lemma ShiftStep(x: int, p: int, y: int, bit: int)
    ensures 2 * (x * p + y) + bit == x * (2 * p) + (2 * y + bit)
  {
  }

  /** A run of zeros denotes zero. */
  lemma {:induction false} ZerosValue(z: string)
    requires IsZeros(z)
    ensures IsBinary(z) && BinaryValue(z) == 0
  {
    if z != [] {
      ZerosValue(z[..|z| - 1]);
    }
  }

  /** Zero-padding binary text on the left keeps it binary and keeps its value. */
  lemma PadZerosValue(s: string, width: nat)
    requires IsBinary(s)
    ensures IsBinary(PadStart(s, width, '0'))
    ensures BinaryValue(PadStart(s, width, '0')) == BinaryValue(s)
  {
    if |s| < width {
      var z := Repeat('0', width - |s|);
      ZerosValue(z);
      BinaryValueAppend(z, s);
      assert PadStart(s, width, '0') == z + s;
    }
  }

  /** Reading back the binary text of `n` gives `n`. */
  lemma {:induction false} ToBinaryValue(n: nat)
    ensures BinaryValue(ToBinary(n)) == n
  {
    if n >= 2 {
      var r := ToBinary(n);
      assert r[..|r| - 1] == ToBinary(n / 2);
      ToBinaryValue(n / 2);
    }
  }

  /** A number below 2^k has at most k binary digits. */
  lemma {:induction false} ToBinaryLength(n: nat, k: nat)
    requires 1 <= k && n < Pow2(k)
    ensures |ToBinary(n)| <= k
  {
    if n >= 2 {
      ToBinaryLength(n / 2, k - 1);
    }
  }

  /** The length of the longest leading run of '0'/'1' characters. */
  function BinaryRunLength(s: string): (k: nat)
    ensures k <= |s|
    ensures IsBinary(s[..k])
    ensures k < |s| ==> !IsBinaryDigit(s[k])
  {
    if s == [] || !IsBinaryDigit(s[0]) then 0
    else
      var k := 1 + BinaryRunLength(s[1..]);
      assert s[..k] == [s[0]] + s[1..][..k - 1];
      k
  }

  /**
   * `parseInt(s, 2)` on a string of decimal digits (so with no leading
   * blanks and no sign): the value of the longest leading run of '0'/'1'
   * characters, or None (NaN) when `s` does not start with one.
   */
  function ParseIntBinary(s: string): (r: Option<nat>)
    requires IsDecimal(s)
    ensures r.Some? <==> |s| > 0 && IsBinaryDigit(s[0])
    ensures r.Some? ==> r.value < Pow2(|s|)
    ensures IsBinary(s) && |s| > 0 ==> r == Some(BinaryValue(s))
    ensures r.Some? ==> r.value == BinaryValue(s[..BinaryRunLength(s)])
  {
    var k := BinaryRunLength(s);
    if k == 0 then None
    else
      Pow2Monotone(k, |s|);
      assert k == |s| ==> s[..k] == s;
      Some(BinaryValue(s[..k]))
  }

  /** `parseInt(s, 2)` of k zeros followed by a digit other than '0' or '1' is 0. */
  lemma LeadingZerosParse(s: string, k: nat)
    requires IsDecimal(s) && 0 < k < |s|
    requires forall i :: 0 <= i < k ==> s[i] == '0'
    requires !IsBinaryDigit(s[k])
    ensures ParseIntBinary(s) == Some(0)
  {
    var n := BinaryRunLength(s);
    assert n == k;
    ZerosValue(s[..k]);
  }

  function DigitChar(d: nat): char
    requires d < 10
  {
    ('0' as int + d) as char
  }

  function DigitOf(c: char): nat
    requires IsDecimalDigit(c)
  {
    c as int - '0' as int
  }

  /** `n.toString()` for a non-negative BigInt `n`: its decimal digits. */
  function ToDecimal(n: nat): (r: string)
    ensures IsDecimal(r) && |r| >= 1
    ensures n == 0 ==> r == "0"
    ensures n >= 1 ==> r[0] != '0'
  {
    if n < 10 then [DigitChar(n)] else ToDecimal(n / 10) + [DigitChar(n % 10)]
  }

  /** The number a string of decimal digits denotes, as `BigInt(s)` reads it. */
  function DecimalValue(s: string): nat
    requires IsDecimal(s)
  {
    if s == [] then 0 else 10 * DecimalValue(s[..|s| - 1]) + DigitOf(s[|s| - 1])
  }

  /** Reading back the decimal text of `n` gives `n`. */
  lemma {:induction false} ToDecimalValue(n: nat)
    ensures DecimalValue(ToDecimal(n)) == n
  {
    if n >= 10 {
      var r := ToDecimal(n);
      assert r[..|r| - 1] == ToDecimal(n / 10);
      ToDecimalValue(n / 10);
    }
  }

  function Pow10(k: nat): (r: nat)
    ensures r >= 1
  {
    if k == 0 then 1 else 10 * Pow10(k - 1)
  }

  /** A number below 10^k has at most k decimal digits. */
  lemma {:induction false} ToDecimalLength(n: nat, k: nat)
    requires 1 <= k && n < Pow10(k)
    ensures |ToDecimal(n)| <= k
  {
    if n >= 10 {
      ToDecimalLength(n / 10, k - 1);
    }
  }

  /** Distinct numbers have distinct decimal texts. */
  lemma ToDecimalInjective(m: nat, n: nat)
    requires ToDecimal(m) == ToDecimal(n)
    ensures m == n
  {
    ToDecimalValue(m);
    ToDecimalValue(n);
  }
}
