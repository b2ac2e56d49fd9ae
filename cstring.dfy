/** Option, for the NULL-able pointers of the board file. */
module Wrappers {
  datatype Option<+T> = None | Some(value: T)
}

/**
 * C strings as Dafny sequences. A `const char *` cursor is an index into the
 * sequence, and every index at or past the end reads as the NUL terminator,
 * so scanning code can look one character ahead without a bounds check.
 */
module CString {
  /** The character a cursor at index `i` points at: `s[i]`, or NUL past the end. */
  function At(s: string, i: nat): (c: char)
    ensures i < |s| ==> c == s[i]
    ensures c != '\0' ==> i < |s|
  {
    if i < |s| then s[i] else '\0'
  }

  /** strlen: the index of the first NUL, which is |t| when `t` holds none. */
  function StrLen(t: string): (n: nat)
    ensures n <= |t|
    ensures At(t, n) == '\0'
    ensures forall j :: 0 <= j < n ==> t[j] != '\0'
  {
    if |t| == 0 || t[0] == '\0' then 0 else 1 + StrLen(t[1..])
  }
}

/** The ASCII classifiers of the board file, on characters. */
module CType {
  const DecimalDigits: string := "0123456789"
  const LowerHexDigits: string := "0123456789abcdef"
  const UpperHexDigits: string := "0123456789ABCDEF"

  /** Isdigit: '0'..'9'. */
  predicate Isdigit(c: char)
  {
    '0' <= c <= '9'
  }

  /** Isxdigit: '0'..'9', 'A'..'F', 'a'..'f'; every decimal digit is one. */
  function Isxdigit(c: char): (b: bool)
    ensures Isdigit(c) ==> b
  {
    ('0' <= c <= '9') || ('A' <= c <= 'F') || ('a' <= c <= 'f')
  }

  /** CharToXDigit: the value of a hexadecimal digit, -1 for any other character. */
  function CharToXDigit(c: char): (d: int)
    ensures -1 <= d <= 15
    ensures 0 <= d <==> Isxdigit(c)
    ensures 0 <= d <= 9 <==> Isdigit(c)
  {
    if '0' <= c <= '9' then c as int - '0' as int
    else if 'a' <= c <= 'f' then c as int - 'a' as int + 10
    else if 'A' <= c <= 'F' then c as int - 'A' as int + 10
    else -1
  }

  /**
   * The classifiers agree with the digit tables: a character is a (hex) digit
   * exactly when it appears in a table, and CharToXDigit gives its position there.
   */
  lemma ClassifiersMatchDigitTables(c: char)
    ensures Isdigit(c) <==> c in DecimalDigits
    ensures Isxdigit(c) <==> c in LowerHexDigits || c in UpperHexDigits
    ensures Isxdigit(c) ==> LowerHexDigits[CharToXDigit(c)] == c || UpperHexDigits[CharToXDigit(c)] == c
    ensures Isdigit(c) ==> DecimalDigits[CharToXDigit(c)] == c
  {
  }
}

/** Fixed-width unsigned arithmetic: `unsigned long long` and `unsigned int`. */
module Word {
  const TWO32: int := 0x1_0000_0000
  const TWO64: int := 0x1_0000_0000_0000_0000

  type u32 = x: int | 0 <= x < TWO32
  type u64 = x: int | 0 <= x < TWO64

  /** Reduction of an exact result to 64 bits, as every unsigned long long operation does. */
  function Wrap(x: int): (r: u64)
    ensures (x - r) % TWO64 == 0
    ensures 0 <= x < TWO64 ==> r == x
  {
    x % TWO64
  }

  /** Conversion of an unsigned long long to unsigned int: the low 32 bits. */
  function Truncate32(x: u64): (r: u32)
    ensures (x - r) % TWO32 == 0
    ensures x < TWO32 ==> r == x
  {
    x % TWO32
  }

  /** Bitwise complement `~v` on 64 bits. */
  function Complement(v: u64): (r: u64)
    ensures v + r == TWO64 - 1
  {
    TWO64 - 1 - v
  }

  /** Two's-complement negation, written as the source writes it: `(~v) + 1`. */
  function Negate(v: u64): (r: u64)
    ensures (v + r) % TWO64 == 0
    ensures r == 0 <==> v == 0
  {
    Wrap(Complement(v) + 1)
  }

  /** `(~v)+1` is the additive inverse of v modulo 2^64, and negating twice gives v back. */
  lemma NegateIsTwosComplement(v: u64)
    ensures Negate(v) == (TWO64 - v) % TWO64
    ensures Wrap(v + Negate(v)) == 0
    ensures Negate(Negate(v)) == v
  {
  }
}
