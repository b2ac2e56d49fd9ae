/**
 * Strtoull of board-star-sdhci.c: an optional '-', an optional "0x"/"0X"
 * prefix and a run of decimal or hexadecimal digits, accumulated in wrapping
 * 64-bit arithmetic, with the stop position reported through an end cursor.
 */
module Strtoull {
  import opened Wrappers
  import opened CString
  import opened CType
  import opened Word

  /** What Strtoull gives back: its value, and what it writes through `endptr` (None when endptr is NULL). */
  datatype Conversion = Conversion(value: u64, end: Option<nat>)

  /** The digits the scanning loop accepts: hexadecimal ones when `hex`, decimal ones otherwise. */
  predicate InRadix(c: char, hex: bool)
  {
    if hex then Isxdigit(c) else Isdigit(c)
  }

  function Radix(hex: bool): nat
  {
    if hex then 16 else 10
  }

  /** The cursor just past an optional leading '-': it moves by one exactly when a '-' is there. */
  function SignEnd(s: string, i: nat): (j: nat)
    ensures i <= j <= i + 1
    ensures j == i + 1 <==> At(s, i) == '-'
  {
    if At(s, i) == '-' then i + 1 else i
  }

  /** Whether the text at `j` starts with "0x" or "0X"; both characters then lie inside the text. */
  predicate HexPrefixAt(s: string, j: nat): (b: bool)
    ensures b ==> j + 2 <= |s| && Isdigit(s[j]) && !Isxdigit(s[j + 1])
  {
    At(s, j) == '0' && (At(s, j + 1) == 'x' || At(s, j + 1) == 'X')
  }

  /** Where the digits start: after the optional sign and the optional "0x" prefix. */
  function DigitsStart(s: string, i: nat): (k: nat)
    requires i <= |s|
    ensures i <= k <= |s|
  {
    var j := SignEnd(s, i);
    if HexPrefixAt(s, j) then j + 2 else j
  }

  /** The end of the maximal run of digits starting at `k`. */
  function RunEnd(s: string, k: nat, hex: bool): (e: nat)
    requires k <= |s|
    ensures k <= e <= |s|
    decreases |s| - k
  {
    if InRadix(At(s, k), hex) then RunEnd(s, k + 1, hex) else k
  }

  /**
   * The scanning loops' value over the digits s[k..e]: the left fold
   * `val*radix + digit`, wrapped to 64 bits after every step.
   */
  function Fold(s: string, k: nat, e: nat, radix: nat): (r: u64)
    requires k <= e <= |s|
    ensures (forall j :: k <= j < e ==> s[j] == '0') ==> r == 0
    decreases e - k
  {
    if e == k then 0 else Wrap(Fold(s, k, e - 1, radix) * radix + CharToXDigit(s[e - 1]))
  }

  /** The exact positional value of a digit string, with no wrap-around. */
  function Magnitude(ds: string, radix: nat): int
  {
    if ds == [] then 0
    else Magnitude(ds[..|ds| - 1], radix) * radix + CharToXDigit(ds[|ds| - 1])
  }

  function Pow(b: nat, n: nat): (r: nat)
  {
    if n == 0 then 1 else b * Pow(b, n - 1)
  }

  /** What Strtoull(s + i, endptr, base) computes; `wantEnd` says whether endptr is non-NULL. */
  function ParseUnsigned(s: string, i: nat, wantEnd: bool, base: int): (c: Conversion)
    requires i <= |s|
    ensures c.end.Some? <==> wantEnd
    ensures c.end.Some? ==> i <= c.end.value <= |s|
  {
    var j := SignEnd(s, i);
    if HexPrefixAt(s, j) && base == 10 && wantEnd then
      Conversion(0, Some(j + 1))
    else
      var hex := HexPrefixAt(s, j) || base == 16;
      var k := DigitsStart(s, i);
      var e := RunEnd(s, k, hex);
      var v := Fold(s, k, e, Radix(hex));
      Conversion(if At(s, i) == '-' then Negate(v) else v, if wantEnd then Some(e) else None)
  }

  /**
   * Strtoull as the source runs it: two cursor loops over `s`, one for each
   * base, then the end cursor and the optional negation.
   */
  method Strtoull(s: string, i: nat, wantEnd: bool, base: int) returns (val: u64, end: Option<nat>)
    requires i <= |s|
    ensures Conversion(val, end) == ParseUnsigned(s, i, wantEnd, base)
  {
    var p := i;
    var neg := false;
    var b := base;
    val := 0;
    if At(s, p) == '-' {
      p := p + 1;
      neg := true;
    }
    if At(s, p) == '0' && (At(s, p + 1) == 'x' || At(s, p + 1) == 'X') {
      if b == 10 {
        if wantEnd {
          end := Some(p + 1);
          return;
        }
      }
      p := p + 2;
      b := 16;
    }
    ghost var k := p;
    assert k == DigitsStart(s, i) && neg == (At(s, i) == '-');
    assert (b == 16) == (HexPrefixAt(s, SignEnd(s, i)) || base == 16);
    if b == 16 {
      val, p := ScanHex(s, p);
    } else {
      val, p := ScanDecimal(s, p);
    }
    assert ParseUnsigned(s, i, wantEnd, base)
        == Conversion(if neg then Negate(val) else val, if wantEnd then Some(p) else None);
    if wantEnd {
      end := Some(p);
    } else {
      end := None;
    }
    if neg {
      val := Negate(val);
    }
  }

  /** The base-16 loop: `val <<= 4; val += digit` while the cursor is on a hex digit. */
  method ScanHex(s: string, k: nat) returns (val: u64, p: nat)
    requires k <= |s|
    ensures p == RunEnd(s, k, true)
    ensures val == Fold(s, k, p, 16)
  {
    p, val := k, 0;
    while Isxdigit(At(s, p))
      invariant k <= p <= |s|
      invariant forall j :: k <= j < p ==> Isxdigit(s[j])
      invariant val == Fold(s, k, p, 16)
      decreases |s| - p
    {
      ghost var before := val;
      val := Wrap(val * 16);
      val := Wrap(val + CharToXDigit(At(s, p)));
      FoldStep(s, k, p, 16, before, val);
      p := p + 1;
    }
    RunEndUnique(s, k, true, p);
  }

  /** The base-10 loop: `val *= 10; val += digit` while the cursor is on a decimal digit. */
  method ScanDecimal(s: string, k: nat) returns (val: u64, p: nat)
    requires k <= |s|
    ensures p == RunEnd(s, k, false)
    ensures val == Fold(s, k, p, 10)
  {
    p, val := k, 0;
    while Isdigit(At(s, p))
      invariant k <= p <= |s|
      invariant forall j :: k <= j < p ==> Isdigit(s[j])
      invariant val == Fold(s, k, p, 10)
      decreases |s| - p
    {
      ghost var before := val;
      val := Wrap(val * 10);
      val := Wrap(val + CharToXDigit(At(s, p)));
      FoldStep(s, k, p, 10, before, val);
      p := p + 1;
    }
    RunEndUnique(s, k, false, p);
  }

  /** One pass of either loop body, shifting then adding with each step wrapped, extends the fold by the digit under the cursor. */
  lemma FoldStep(s: string, k: nat, p: nat, radix: nat, before: u64, after: u64)
    requires k <= p < |s|
    requires before == Fold(s, k, p, radix)
    requires after == Wrap(Wrap(before * radix) + CharToXDigit(s[p]))
    ensures after == Fold(s, k, p + 1, radix)
  {
    WrapAdd(before * radix, CharToXDigit(s[p]));
  }

  lemma WrapAdd(a: int, d: int)
    ensures Wrap(Wrap(a) + d) == Wrap(a + d)
  {
    var q := a / TWO64;
    assert a == q * TWO64 + Wrap(a);
    ModShift(Wrap(a) + d, q);
  }

  lemma ModShift(x: int, q: int)
    ensures (x + q * TWO64) % TWO64 == x % TWO64
  {
  }

  /** RunEnd ends a run: every character before it is a digit, the one at it is not. */
  lemma {:induction false} RunEndIsMaximal(s: string, k: nat, hex: bool)
    requires k <= |s|
    ensures forall j :: k <= j < RunEnd(s, k, hex) ==> InRadix(s[j], hex)
    ensures !InRadix(At(s, RunEnd(s, k, hex)), hex)
    decreases |s| - k
  {
    if InRadix(At(s, k), hex) {
      RunEndIsMaximal(s, k + 1, hex);
    }
  }

  /** A run end is determined by the run: any position that ends the digit run from `k` is RunEnd. */
  lemma RunEndUnique(s: string, k: nat, hex: bool, e: nat)
    requires k <= e <= |s|
    requires forall j :: k <= j < e ==> InRadix(s[j], hex)
    requires !InRadix(At(s, e), hex)
    ensures RunEnd(s, k, hex) == e
    decreases e - k
  {
    if k < e {
      RunEndUnique(s, k + 1, hex, e);
    }
  }

  /** The wrapping fold of the loops equals the exact positional value reduced modulo 2^64. */
  lemma {:induction false} FoldIsMagnitudeMod(s: string, k: nat, e: nat, radix: nat)
    requires k <= e <= |s|
    ensures Fold(s, k, e, radix) == Magnitude(s[k..e], radix) % TWO64
    decreases e - k
  {
    if e > k {
      FoldIsMagnitudeMod(s, k, e - 1, radix);
      MagnitudeSnoc(s, k, e, radix);
      FoldStepMod(Fold(s, k, e - 1, radix), Magnitude(s[k..e - 1], radix), radix, CharToXDigit(s[e - 1]));
    }
  }

  /** The exact value of s[k..e] extends that of s[k..e-1] by its last digit. */
  lemma MagnitudeSnoc(s: string, k: nat, e: nat, radix: nat)
    requires k < e <= |s|
    ensures Magnitude(s[k..e], radix) == Magnitude(s[k..e - 1], radix) * radix + CharToXDigit(s[e - 1])
  {
    var ds := s[k..e];
    assert ds[..|ds| - 1] == s[k..e - 1] && ds[|ds| - 1] == s[e - 1];
  }

  /** One fold step keeps the wrapped value equal to the exact value modulo 2^64. */
  lemma FoldStepMod(f: u64, m: int, radix: nat, d: int)
    requires f == m % TWO64
    ensures Wrap(f * radix + d) == (m * radix + d) % TWO64
  {
    ModMulAdd(m, radix, d);
  }

  lemma ModMulAdd(a: int, r: nat, d: int)
    ensures ((a % TWO64) * r + d) % TWO64 == (a * r + d) % TWO64
  {
    var q := a / TWO64;
    var m := a % TWO64;
    assert a == q * TWO64 + m;
    calc {
      a * r + d;
      (q * TWO64 + m) * r + d;
      { assert (q * TWO64 + m) * r == (q * r) * TWO64 + m * r; }
      m * r + d + (q * r) * TWO64;
    }
    ModShift(m * r + d, q * r);
  }

  /** A run of n digits in the radix denotes a number below radix^n. */
  lemma {:induction false} MagnitudeBound(ds: string, hex: bool)
    requires forall j :: 0 <= j < |ds| ==> InRadix(ds[j], hex)
    ensures 0 <= Magnitude(ds, Radix(hex)) < Pow(Radix(hex), |ds|)
    decreases |ds|
  {
    if ds != [] {
      var init := ds[..|ds| - 1];
      var r := Radix(hex);
      MagnitudeBound(init, hex);
      var m := Magnitude(init, r);
      var pw := Pow(r, |init|);
      assert m * r <= (pw - 1) * r by { MulMono(m, pw - 1, r); }
    }
  }

  lemma MulMono(a: int, b: int, r: nat)
    requires a <= b
    ensures a * r <= b * r
  {
  }

  lemma {:induction false} PowMono(b: nat, m: nat, n: nat)
    requires 1 <= b && m <= n
    ensures Pow(b, m) <= Pow(b, n)
    decreases n
  {
    if m < n {
      PowMono(b, m, n - 1);
      assert Pow(b, n) == b * Pow(b, n - 1);
      MulMono(1, b, Pow(b, n - 1));
    }
  }

  lemma {:induction false} PowAdd(b: nat, m: nat, n: nat)
    ensures Pow(b, m + n) == Pow(b, m) * Pow(b, n)
    decreases n
  {
    if n > 0 {
      PowAdd(b, m, n - 1);
      assert Pow(b, m + n) == b * Pow(b, m + n - 1);
    }
  }

  /**
   * No wrap-around for short fields: up to 16 hexadecimal or 19 decimal digits
   * the loops compute the exact value.
   */
  lemma ShortRunIsExact(s: string, k: nat, e: nat, hex: bool)
    requires k <= e <= |s|
    requires forall j :: k <= j < e ==> InRadix(s[j], hex)
    requires e - k <= (if hex then 16 else 19)
    ensures Fold(s, k, e, Radix(hex)) == Magnitude(s[k..e], Radix(hex))
  {
    var ds := s[k..e];
    forall j | 0 <= j < |ds|
      ensures InRadix(ds[j], hex)
    {
      assert ds[j] == s[k + j];
    }
    ShortMagnitudeFits(ds, hex);
    FoldIsMagnitudeMod(s, k, e, Radix(hex));
  }

  /** Sixteen hexadecimal or nineteen decimal digits denote a number below 2^64. */
  lemma ShortMagnitudeFits(ds: string, hex: bool)
    requires forall j :: 0 <= j < |ds| ==> InRadix(ds[j], hex)
    requires |ds| <= (if hex then 16 else 19)
    ensures 0 <= Magnitude(ds, Radix(hex)) < TWO64
  {
    MagnitudeBound(ds, hex);
    if hex {
      PowMono(16, |ds|, 16);
      assert Pow(16, 16) == TWO64 by {
        PowAdd(16, 8, 8);
        PowAdd(16, 4, 4);
      }
    } else {
      PowMono(10, |ds|, 19);
      assert Pow(10, 19) < TWO64 by {
        PowAdd(10, 16, 3);
        PowAdd(10, 8, 8);
        PowAdd(10, 4, 4);
      }
    }
  }

  /**
   * Base 16, or a "0x" prefix outside the decimal short-cut: the result is the
   * maximal hexadecimal run ending at `e`, read positionally modulo 2^64 and
   * negated after a leading '-'; the end cursor lands on the first non-hex character.
   */
  lemma ParseHexRun(s: string, i: nat, wantEnd: bool, base: int, e: nat)
    requires i <= |s|
    requires base == 16 || (HexPrefixAt(s, SignEnd(s, i)) && !(base == 10 && wantEnd))
    requires DigitsStart(s, i) <= e <= |s|
    requires forall j :: DigitsStart(s, i) <= j < e ==> Isxdigit(s[j])
    requires !Isxdigit(At(s, e))
    ensures var v := Magnitude(s[DigitsStart(s, i)..e], 16) % TWO64;
            ParseUnsigned(s, i, wantEnd, base)
              == Conversion(if At(s, i) == '-' then Negate(v) else v, if wantEnd then Some(e) else None)
  {
    RunEndUnique(s, DigitsStart(s, i), true, e);
    FoldIsMagnitudeMod(s, DigitsStart(s, i), e, 16);
  }

  /**
   * Any base but 16 and no "0x" prefix: the result is the maximal decimal run
   * ending at `e`, read positionally modulo 2^64 and negated after a leading '-';
   * with no digits at all it is 0 and the cursor stays just after the sign.
   */
  lemma ParseDecimalRun(s: string, i: nat, wantEnd: bool, base: int, e: nat)
    requires i <= |s|
    requires base != 16 && !HexPrefixAt(s, SignEnd(s, i))
    requires SignEnd(s, i) <= e <= |s|
    requires forall j :: SignEnd(s, i) <= j < e ==> Isdigit(s[j])
    requires !Isdigit(At(s, e))
    ensures var v := Magnitude(s[SignEnd(s, i)..e], 10) % TWO64;
            ParseUnsigned(s, i, wantEnd, base)
              == Conversion(if At(s, i) == '-' then Negate(v) else v, if wantEnd then Some(e) else None)
    ensures e == SignEnd(s, i) ==>
              ParseUnsigned(s, i, wantEnd, base) == Conversion(0, if wantEnd then Some(e) else None)
  {
    RunEndUnique(s, SignEnd(s, i), false, e);
    FoldIsMagnitudeMod(s, SignEnd(s, i), e, 10);
  }

  /**
   * The decimal short-cut: base 10, an end cursor, and "0x"/"0X" after the
   * optional sign give 0 with the cursor just past the '0'; without an end
   * cursor the same text is read as hexadecimal (ParseHexRun).
   */
  lemma ParseDecimalHexPrefix(s: string, i: nat)
    requires i <= |s|
    requires HexPrefixAt(s, SignEnd(s, i))
    ensures ParseUnsigned(s, i, true, 10) == Conversion(0, Some(SignEnd(s, i) + 1))
  {
  }

  /** A single leading '-' negates, two's-complement style, what the rest of the text parses to. */
  lemma ParseNegative(s: string, i: nat, wantEnd: bool, base: int)
    requires i < |s| && s[i] == '-' && At(s, i + 1) != '-'
    ensures ParseUnsigned(s, i, wantEnd, base).value == Negate(ParseUnsigned(s, i + 1, wantEnd, base).value)
    ensures ParseUnsigned(s, i, wantEnd, base).end == ParseUnsigned(s, i + 1, wantEnd, base).end
  {
  }

  lemma ParseExamples()
    ensures ParseUnsigned("0x1A", 0, true, 16) == Conversion(26, Some(4))
    ensures ParseUnsigned("0x1A", 0, true, 10) == Conversion(0, Some(1))
    ensures ParseUnsigned("-5", 0, true, 10) == Conversion(TWO64 - 5, Some(2))
  {
    var h := "0x1A";
    RunEndUnique(h, 2, true, 4);
    assert Fold(h, 2, 4, 16) == 26;
    var m := "-5";
    RunEndUnique(m, 1, false, 2);
    assert Fold(m, 1, 2, 10) == 5;
  }

  /** Lower-case hexadecimal text of a number, most significant digit first, no prefix. */
  function ToHex(n: nat): (h: string)
    ensures |h| >= 1
    decreases n
  {
    if n < 16 then [HexChar(n)] else ToHex(n / 16) + [HexChar(n % 16)]
  }

  /** The lower-case hexadecimal digit of value d. */
  function HexChar(d: nat): (c: char)
    requires d < 16
    ensures Isxdigit(c) && CharToXDigit(c) == d
  {
    if d < 10 then ('0' as int + d) as char else ('a' as int + d - 10) as char
  }

  /** ToHex writes only hex digits, has no "0" lead unless n is 0, and reads back as n. */
  lemma {:induction false} ToHexDigits(n: nat)
    ensures forall j :: 0 <= j < |ToHex(n)| ==> Isxdigit(ToHex(n)[j])
    ensures ToHex(n)[0] == '0' ==> n == 0
    ensures Magnitude(ToHex(n), 16) == n
    decreases n
  {
    var h := ToHex(n);
    if n < 16 {
      assert h[..0] == [];
    } else {
      ToHexDigits(n / 16);
      assert h[..|h| - 1] == ToHex(n / 16);
    }
  }

  /**
   * Round trip: the text ToHex(n) of a 64-bit number, placed at `i` in front of
   * a character that does not continue the digits (nor, after "0", makes "0x"), is read back
   * exactly by base-16 Strtoull, with the end cursor right after the digits.
   */
  lemma ParseToHex(s: string, i: nat, n: u64)
    requires i + |ToHex(n)| <= |s| && s[i..i + |ToHex(n)|] == ToHex(n)
    requires var c := At(s, i + |ToHex(n)|); !Isxdigit(c) && (n == 0 ==> c != 'x' && c != 'X')
    ensures ParseUnsigned(s, i, true, 16) == Conversion(n, Some(i + |ToHex(n)|))
  {
    HexTextAt(s, i, n);
    ParseHexRun(s, i, true, 16, i + |ToHex(n)|);
  }

  /** ToHex(n) placed at `i`: no sign, no "0x", only hex digits, and positional value n. */
  lemma HexTextAt(s: string, i: nat, n: u64)
    requires i + |ToHex(n)| <= |s| && s[i..i + |ToHex(n)|] == ToHex(n)
    requires var c := At(s, i + |ToHex(n)|); n == 0 ==> c != 'x' && c != 'X'
    ensures At(s, i) != '-' && !HexPrefixAt(s, i) && DigitsStart(s, i) == i
    ensures forall j :: i <= j < i + |ToHex(n)| ==> Isxdigit(s[j])
    ensures Magnitude(s[i..i + |ToHex(n)|], 16) == n
  {
    var h := ToHex(n);
    var e := i + |h|;
    ToHexDigits(n);
    assert At(s, i) == h[0];
    assert !HexPrefixAt(s, i) by {
      if h[0] == '0' {
        assert |h| == 1;
      } else {
        assert At(s, i) != '0';
      }
    }
    forall j | i <= j < e
      ensures Isxdigit(s[j])
    {
      assert s[j] == h[j - i];
    }
  }
}
