/** Binary and hexadecimal digit strings, as produced by Python's
    format(v, '08b') and format(v, '02X') and read by int(s, 2) and int(s, 16),
    and the binary shape of a netmask. */
module Radix {

  function Pow2(n: nat): (r: nat)
    ensures r >= 1
  {
    if n == 0 then 1 else 2 * Pow2(n - 1)
  }

  lemma {:induction false} Pow2Add(a: nat, b: nat)
    ensures Pow2(a + b) == Pow2(a) * Pow2(b)
  {
    if b > 0 {
      Pow2Add(a, b - 1);
      assert Pow2(a + b) == 2 * Pow2(a + b - 1);
    }
  }

  lemma {:induction false} Pow2StrictlyIncreasing(a: nat, b: nat)
    requires a < b
    ensures 2 * Pow2(a) <= Pow2(b)
  {
    if a + 1 < b {
      Pow2StrictlyIncreasing(a, b - 1);
    }
  }

  lemma Pow2Monotone(a: nat, b: nat)
    requires a <= b
    ensures Pow2(a) <= Pow2(b)
  {
    if a < b {
      Pow2StrictlyIncreasing(a, b);
    }
  }

  /** The widths the dotted formats use. */
  lemma Pow2Constants()
    ensures Pow2(8) == 0x100
    ensures Pow2(16) == 0x1_0000
    ensures Pow2(24) == 0x100_0000
    ensures Pow2(32) == 0x1_0000_0000
  {
    assert Pow2(8) == 0x100;
    Pow2Add(8, 8);
    Pow2Add(16, 8);
    Pow2Add(24, 8);
  }

  // ---------------------------------------------------------------- binary

  predicate IsBit(c: char) {
    c == '0' || c == '1'
  }

  predicate IsBinary(s: string) {
    forall i :: 0 <= i < |s| ==> IsBit(s[i])
  }

  function BitChar(b: nat): (c: char)
    requires b < 2
    ensures IsBit(c)
  {
    if b == 0 then '0' else '1'
  }

  /** int(s, 2) for a string of 0s and 1s. */
  function BinValue(s: string): (v: nat)
    requires IsBinary(s)
    ensures v < Pow2(|s|)
  {
    if s == [] then 0
    else BinValue(s[..|s| - 1]) * 2 + (if s[|s| - 1] == '1' then 1 else 0)
  }

  /** v written in binary with exactly `width` digits, most significant first
      (format(v, '0<width>b') when v fits in `width` bits). */
  function BinPad(v: nat, width: nat): (s: string)
    requires v < Pow2(width)
    ensures |s| == width && IsBinary(s) && BinValue(s) == v
  {
    if width == 0 then []
    else
      var s := BinPad(v / 2, width - 1) + [BitChar(v % 2)];
      assert s[..|s| - 1] == BinPad(v / 2, width - 1);
      s
  }

  /** format(v, '08b') for an octet. */
  function Bin8(v: nat): (s: string)
    requires v < 256
    ensures |s| == 8 && IsBinary(s) && BinValue(s) == v
  {
    Pow2Constants();
    BinPad(v, 8)
  }

  /** Reading the digits of a concatenation: the left part is shifted past
      the right part. */
  lemma {:induction false} BinValueAppend(x: string, y: string)
    requires IsBinary(x) && IsBinary(y)
    ensures IsBinary(x + y)
    ensures BinValue(x + y) == BinValue(x) * Pow2(|y|) + BinValue(y)
  {
    if y != [] {
      var y' := y[..|y| - 1];
      assert (x + y)[..|x + y| - 1] == x + y';
      assert (x + y)[|x + y| - 1] == y[|y| - 1];
      BinValueAppend(x, y');
      ShiftDigit(BinValue(x), Pow2(|y'|), BinValue(y'), if y[|y| - 1] == '1' then 1 else 0);
    } else {
      assert x + y == x;
    }
  }

  /** Appending a digit to a shifted sum doubles the shift. */
  lemma ShiftDigit(a: nat, p: nat, v: nat, b: nat)
    ensures (a * p + v) * 2 + b == a * (2 * p) + (v * 2 + b)
  {
  }

  /** A binary string is determined by its value and its length. */
  lemma {:induction false} BinPadOfValue(s: string)
    requires IsBinary(s)
    ensures BinPad(BinValue(s), |s|) == s
  {
    if s != [] {
      var p := s[..|s| - 1];
      var b := if s[|s| - 1] == '1' then 1 else 0;
      var v := BinValue(s);
      BinPadOfValue(p);
      assert v == BinValue(p) * 2 + b;
      assert v / 2 == BinValue(p) && v % 2 == b;
      assert BitChar(b) == s[|s| - 1];
      assert BinPad(v, |s|) == BinPad(BinValue(p), |p|) + [BitChar(b)];
      assert s == p + [s[|s| - 1]];
    }
  }

  // ------------------------------------------------------------ mask shape

  function Ones(k: nat): (s: string)
    ensures |s| == k && forall i :: 0 <= i < k ==> s[i] == '1'
  {
    seq(k, _ => '1')
  }

  function Zeros(k: nat): (s: string)
    ensures |s| == k && forall i :: 0 <= i < k ==> s[i] == '0'
  {
    seq(k, _ => '0')
  }

  /** '01' in s. */
  predicate HasZeroOne(s: string) {
    exists i :: 0 <= i < |s| - 1 && s[i] == '0' && s[i + 1] == '1'
  }

  /** s.count('1'). */
  function CountOnes(s: string): (n: nat)
    ensures n <= |s|
  {
    if s == [] then 0 else (if s[0] == '1' then 1 else 0) + CountOnes(s[1..])
  }

  /** k ones followed by m zeros is the number 2^(k+m) - 2^m. */
  lemma {:induction false} OnesZerosValue(k: nat, m: nat)
    ensures IsBinary(Ones(k) + Zeros(m))
    ensures BinValue(Ones(k) + Zeros(m)) == Pow2(k + m) - Pow2(m)
  {
    if m > 0 {
      OnesZerosValue(k, m - 1);
      assert (Ones(k) + Zeros(m))[..k + m - 1] == Ones(k) + Zeros(m - 1);
    } else if k > 0 {
      OnesZerosValue(k - 1, 0);
      assert Ones(k) + Zeros(0) == Ones(k - 1) + Zeros(0) + ['1'];
      assert (Ones(k) + Zeros(0))[..k - 1] == Ones(k - 1) + Zeros(0);
    }
  }

  /** Ones followed by zeros contains no "01", and its count of 1s is k. */
  lemma {:induction false} OnesZerosShape(k: nat, m: nat)
    ensures !HasZeroOne(Ones(k) + Zeros(m))
    ensures CountOnes(Ones(k) + Zeros(m)) == k
  {
    var s := Ones(k) + Zeros(m);
    if k > 0 {
      assert s[1..] == Ones(k - 1) + Zeros(m);
      OnesZerosShape(k - 1, m);
    } else if m > 0 {
      assert s[1..] == Ones(0) + Zeros(m - 1);
      OnesZerosShape(0, m - 1);
    }
  }

  /** A binary string without "01" is a run of 1s followed by a run of 0s,
      the 1s being exactly its count of 1s. */
  lemma {:induction false} NoZeroOneShape(s: string)
    requires IsBinary(s) && !HasZeroOne(s)
    ensures s == Ones(CountOnes(s)) + Zeros(|s| - CountOnes(s))
  {
    if s != [] {
      var t := s[1..];
      assert !HasZeroOne(t);
      NoZeroOneShape(t);
      var k := CountOnes(t);
      if s[0] == '0' && k > 0 {
        assert false;
      }
    }
  }

  // ---------------------------------------------------------- hexadecimal

  predicate IsHexDigit(c: char) {
    '0' <= c <= '9' || 'A' <= c <= 'F' || 'a' <= c <= 'f'
  }

  predicate IsHex(s: string) {
    forall i :: 0 <= i < |s| ==> IsHexDigit(s[i])
  }

  function HexDigitValue(c: char): (d: nat)
    requires IsHexDigit(c)
    ensures d < 16
  {
    if '0' <= c <= '9' then c as int - '0' as int
    else if 'A' <= c <= 'F' then c as int - 'A' as int + 10
    else c as int - 'a' as int + 10
  }

  /** The upper-case digit format(d, 'X') prints. */
  function HexDigitUpper(d: nat): (c: char)
    requires d < 16
    ensures IsHexDigit(c) && HexDigitValue(c) == d
    ensures IsUpperHexDigit(c)
  {
    if d < 10 then ('0' as int + d) as char else ('A' as int + d - 10) as char
  }

  /** int(s, 16) for a string of hex digits of either case. */
  function HexValue(s: string): nat
    requires IsHex(s)
  {
    if s == [] then 0 else HexValue(s[..|s| - 1]) * 16 + HexDigitValue(s[|s| - 1])
  }

  predicate IsUpperHexDigit(c: char) {
    '0' <= c <= '9' || 'A' <= c <= 'F'
  }

  /** Exactly two hex digits, upper case: the shape format(v, '02X') prints. */
  predicate IsUpperHexPair(s: string) {
    |s| == 2 && IsUpperHexDigit(s[0]) && IsUpperHexDigit(s[1])
  }

  /** format(v, '02X') for an octet: exactly two upper-case hex digits that
      read back as v. */
  function Hex2(v: nat): (s: string)
    requires v < 256
    ensures IsUpperHexPair(s) && IsHex(s)
    ensures HexValue(s) == v
  {
    var hi, lo := HexDigitUpper(v / 16), HexDigitUpper(v % 16);
    var s := [hi, lo];
    assert s[..1] == [hi] && [hi][..0] == [];
    assert HexValue([hi]) == HexDigitValue(hi);
    assert HexValue(s) == HexValue([hi]) * 16 + HexDigitValue(lo);
    s
  }

  /** Two upper-case hex digits are the format(v, '02X') of their value. */
  lemma {:induction false} Hex2OfValue(s: string)
    requires IsUpperHexPair(s)
    ensures IsHex(s) && HexValue(s) < 256 && Hex2(HexValue(s)) == s
  {
    var hi, lo := HexDigitValue(s[0]), HexDigitValue(s[1]);
    assert s[..1] == [s[0]] && [s[0]][..0] == [];
    assert HexValue([s[0]]) == hi;
    var v := HexValue(s);
    assert v == hi * 16 + lo;
    assert v / 16 == hi && v % 16 == lo;
    assert HexDigitUpper(hi) == s[0];
    assert HexDigitUpper(lo) == s[1];
  }
}
