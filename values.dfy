/**
 * The data a registry value can hold, as the .NET registry API hands it back
 * boxed in an `object`, and `Stringify`, which stands in for that object's
 * `ToString()`.
 */
module Values {

  /** The range of a .NET `Int32` (how a REG_DWORD comes back from GetValue). */
  type Int32 = n: int | -0x8000_0000 <= n < 0x8000_0000

  /** The range of a .NET `Int64` (how a REG_QWORD comes back from GetValue). */
  type Int64 = n: int | -0x8000_0000_0000_0000 <= n < 0x8000_0000_0000_0000

  /** The boxed data of a registry value. */
  datatype Data =
    | Int(n: Int32)            // REG_DWORD
    | Long(q: Int64)           // REG_QWORD
    | Str(s: string)           // REG_SZ, REG_EXPAND_SZ
    | Bytes(b: seq<bv8>)       // REG_BINARY
    | Strings(ss: seq<string>) // REG_MULTI_SZ

  predicate IsDigit(c: char) {
    '0' <= c <= '9'
  }

  predicate AllDigits(s: string) {
    forall i :: 0 <= i < |s| ==> IsDigit(s[i])
  }

  /** The shape of what `Decimal` produces: an optional minus sign, then digits. */
  predicate IsDecimal(s: string) {
    if |s| > 0 && s[0] == '-' then |s| > 1 && AllDigits(s[1..]) else |s| > 0 && AllDigits(s)
  }

  function DigitChar(d: nat): (c: char)
    requires d < 10
    ensures IsDigit(c) && (c as int) - ('0' as int) == d
  {
    (('0' as int) + d) as char
  }

  /** The decimal digits of `n`, most significant first, without leading zeros. */
  function Digits(n: nat): (r: string)
    ensures |r| > 0 && AllDigits(r)
    ensures n >= 10 ==> |r| > 1
  {
    if n < 10 then [DigitChar(n)] else Digits(n / 10) + [DigitChar(n % 10)]
  }

  /** Integer formatting as `Int32.ToString()` / `Int64.ToString()` does it with a '-' sign. */
  function Decimal(n: int): (r: string)
    ensures IsDecimal(r)
    ensures (r[0] == '-') == (n < 0)
  {
    if n < 0 then "-" + Digits(-n) else Digits(n)
  }

  /** The number a string of digits denotes: the partner of `Digits`. */
  function DigitsValue(s: string): nat
    requires AllDigits(s)
  {
    if s == [] then 0
    else DigitsValue(s[..|s| - 1]) * 10 + ((s[|s| - 1] as int) - ('0' as int))
  }

  /** Integer parsing: the partner of `Decimal`. */
  function ParseDecimal(s: string): int
    requires IsDecimal(s)
  {
    if s[0] == '-' then -(DigitsValue(s[1..]) as int) else DigitsValue(s)
  }

  lemma {:induction false} DigitsRoundTrip(n: nat)
    ensures DigitsValue(Digits(n)) == n
  {
    if n >= 10 {
      var r := Digits(n);
      assert r[..|r| - 1] == Digits(n / 10);
      DigitsRoundTrip(n / 10);
    }
  }

  /** Formatting then parsing gives the number back. */
  lemma {:induction false} DecimalRoundTrip(n: int)
    ensures ParseDecimal(Decimal(n)) == n
  {
    if n < 0 {
      assert Decimal(n)[1..] == Digits(-n);
      DigitsRoundTrip(-n);
    } else {
      DigitsRoundTrip(n);
    }
  }

  /** Two different numbers never format to the same text. */
  lemma DecimalInjective(a: int, b: int)
    ensures Decimal(a) == Decimal(b) <==> a == b
  {
    DecimalRoundTrip(a);
    DecimalRoundTrip(b);
  }

  /** `object.ToString()` on the boxed data: numbers in decimal, strings as they are,
    * arrays as their .NET type name. */
  function Stringify(d: Data): (r: string)
    ensures d.Str? ==> r == d.s
    ensures (d.Int? || d.Long?) ==> IsDecimal(r) && ParseDecimal(r) == (if d.Int? then d.n else d.q)
  {
    match d
    case Int(n) => DecimalRoundTrip(n); Decimal(n)
    case Long(n) => DecimalRoundTrip(n); Decimal(n)
    case Str(s) => s
    case Bytes(_) => "System.Byte[]"
    case Strings(_) => "System.String[]"
  }

  /** The data that mean "1" to a reader that compares `ToString()` with "1". */
  predicate IsOne(d: Data) {
    d == Int(1) || d == Long(1) || d == Str("1")
  }

  /** `ToString()` gives "1" exactly for the number one (of either width) and the string "1". */
  lemma StringifyIsOne(d: Data)
    ensures Stringify(d) == "1" <==> IsOne(d)
  {
  }
}
