/**
 * The body colour codec (SphericalCelestialBody.cs): an Int32 ARGB value is
 * written with ToString("x8") and read back with int.Parse(text, NumberStyles.HexNumber).
 */
module HexColor {
  import opened Outcomes
  import A = Arith

  const TwoTo31: int := 0x8000_0000
  const TwoTo32: int := 0x1_0000_0000

  predicate IsInt32(n: int) {
    -TwoTo31 <= n < TwoTo31
  }

  function Pow16(k: nat): (r: nat)
    ensures r > 0
  {
    if k == 0 then 1 else 16 * Pow16(k - 1)
  }

  /** The 32-bit two's-complement bit pattern of an Int32, read as unsigned. */
  function ToUnsigned(n: int): (u: nat)
    requires IsInt32(n)
    ensures u < TwoTo32
    ensures n >= 0 ==> u == n
    ensures n < 0 ==> u == n + TwoTo32
  {
    if n < 0 then n + TwoTo32 else n
  }

  /** The Int32 whose two's-complement bit pattern is `u`. */
  function FromUnsigned(u: nat): (n: int)
    requires u < TwoTo32
    ensures IsInt32(n)
    ensures ToUnsigned(n) == u
  {
    if u >= TwoTo31 then u - TwoTo32 else u
  }

  /** The lower-case hex digit for a value below 16. */
  function LowerDigit(d: nat): (c: char)
    requires d < 16
    ensures IsLowerDigit(c)
  {
    if d < 10 then ((('0' as int) + d) as char) else ((('a' as int) + d - 10) as char)
  }

  predicate IsLowerDigit(c: char) {
    '0' <= c <= '9' || 'a' <= c <= 'f'
  }

  predicate IsHexDigit(c: char) {
    '0' <= c <= '9' || 'a' <= c <= 'f' || 'A' <= c <= 'F'
  }

  function DigitValue(c: char): (d: nat)
    requires IsHexDigit(c)
    ensures d < 16
  {
    if '0' <= c <= '9' then (c as int) - ('0' as int)
    else if 'a' <= c <= 'f' then (c as int) - ('a' as int) + 10
    else (c as int) - ('A' as int) + 10
  }

  /** The white space NumberStyles.AllowLeadingWhite / AllowTrailingWhite accept. */
  predicate IsWhite(c: char) {
    c == ' ' || '\t' <= c <= '\r'
  }

  function TrimStart(s: string): (t: string)
    ensures |t| <= |s|
    ensures |t| > 0 ==> !IsWhite(t[0])
    decreases |s|
  {
    if |s| > 0 && IsWhite(s[0]) then TrimStart(s[1..]) else s
  }

  function TrimEnd(s: string): (t: string)
    ensures |t| <= |s|
    ensures |t| > 0 ==> !IsWhite(t[|t| - 1])
    decreases |s|
  {
    if |s| > 0 && IsWhite(s[|s| - 1]) then TrimEnd(s[..|s| - 1]) else s
  }

  /** The number a string of hex digits denotes, most significant digit first. */
  function HexValue(s: string): nat
    requires forall i | 0 <= i < |s| :: IsHexDigit(s[i])
    decreases |s|
  {
    if |s| == 0 then 0 else 16 * HexValue(s[..|s| - 1]) + DigitValue(s[|s| - 1])
  }

  /** int.Parse(s, NumberStyles.HexNumber): optional surrounding white space
      around one or more hex digits of either case; a value that does not fit
      in 32 bits overflows, one that does is taken as a two's-complement bit
      pattern (so "ffffffff" is -1). */
  function ParseHex(s: string): (r: Result<int>)
    ensures r.Ok? ==> IsInt32(r.value)
  {
    var t := TrimEnd(TrimStart(s));
    if |t| == 0 || exists i | 0 <= i < |t| :: !IsHexDigit(t[i]) then Err(BadHex)
    else
      var u := HexValue(t);
      if u >= TwoTo32 then Err(BadHex) else Ok(FromUnsigned(u))
  }

  /** The last `k` lower-case hex digits of `u`, most significant first. */
  function Digits(u: nat, k: nat): (s: string)
    ensures |s| == k
    ensures forall i | 0 <= i < k :: IsLowerDigit(s[i])
  {
    if k == 0 then "" else Digits(u / 16, k - 1) + [LowerDigit(u % 16)]
  }

  /** ToString("x8") of an Int32: exactly eight lower-case hex digits of its
      two's-complement bit pattern. */
  function FormatX8(n: int): (s: string)
    requires IsInt32(n)
    ensures |s| == 8
    ensures forall i | 0 <= i < 8 :: IsLowerDigit(s[i])
  {
    Digits(ToUnsigned(n), 8)
  }

  lemma LowerDigitValue(d: nat)
    requires d < 16
    ensures IsHexDigit(LowerDigit(d)) && DigitValue(LowerDigit(d)) == d
  {
  }

  /** Reading k digits written from u gives u modulo 16^k. */
  lemma {:induction false} DigitsValue(u: nat, k: nat)
    ensures forall i | 0 <= i < k :: IsHexDigit(Digits(u, k)[i])
    ensures HexValue(Digits(u, k)) == u % Pow16(k)
  {
    if k > 0 {
      DigitsValue(u / 16, k - 1);
      var s := Digits(u, k);
      var prefix := Digits(u / 16, k - 1);
      assert s == prefix + [LowerDigit(u % 16)];
      assert s[..|s| - 1] == prefix;
      LowerDigitValue(u % 16);
      forall i | 0 <= i < k
        ensures IsHexDigit(s[i])
      {
        if i < k - 1 { assert s[i] == prefix[i]; }
      }
      ModOfPow16(u, k);
    }
  }

  /** u mod 16^k == 16 * ((u / 16) mod 16^(k-1)) + u mod 16. */
  lemma ModOfPow16(u: nat, k: nat)
    requires k > 0
    ensures u % Pow16(k) == 16 * ((u / 16) % Pow16(k - 1)) + u % 16
  {
    var p := Pow16(k - 1);
    var q := u / 16;
    var d := u % 16;
    assert u == 16 * q + d;
    var a := q / p;
    var b := q % p;
    assert q == a * p + b;
    assert u == (16 * p) * a + (16 * b + d);
    assert 0 <= 16 * b + d < 16 * p;
    A.DivModUnique(u, 16 * p, a, 16 * b + d);
  }

  lemma NoWhiteInDigits(s: string)
    requires forall i | 0 <= i < |s| :: IsLowerDigit(s[i])
    ensures TrimEnd(TrimStart(s)) == s
  {
    if |s| > 0 {
      assert IsLowerDigit(s[0]);
      assert IsLowerDigit(s[|s| - 1]);
    }
  }

  lemma Pow16Of8()
    ensures Pow16(8) == TwoTo32
  {
    assert Pow16(2) == 256;
    assert Pow16(4) == 65536;
    assert Pow16(6) == 16777216;
  }

  /** Every Int32 colour, negative ARGB values included, survives being written
      with "x8" and parsed back as hex. */
  lemma HexRoundTrip(n: int)
    requires IsInt32(n)
    ensures ParseHex(FormatX8(n)) == Ok(n)
  {
    var u := ToUnsigned(n);
    var s := FormatX8(n);
    DigitsValue(u, 8);
    Pow16Of8();
    assert u % TwoTo32 == u;
    NoWhiteInDigits(s);
    var t := TrimEnd(TrimStart(s));
    assert t == s;
    assert forall i | 0 <= i < |t| :: IsHexDigit(t[i]);
    assert HexValue(t) == u;
    assert FromUnsigned(u) == n;
  }
}
