/** Rust's integer parsing, as the flow translator uses it. */
module Numerals {
  import opened Text

  function DigitOf(c: char, radix: nat): (r: Option<nat>)
    requires radix <= 16
    ensures r.Some? ==> r.value < radix
  {
    var d :=
      if '0' <= c <= '9' then c as int - '0' as int
      else if 'a' <= c <= 'f' then c as int - 'a' as int + 10
      else if 'A' <= c <= 'F' then c as int - 'A' as int + 10
      else 16;
    if d < radix then Some(d) else None
  }

  function Digits(s: string, radix: nat): Option<nat>
    requires radix <= 16
  {
    if s == "" then Some(0) else
      var high :- Digits(s[..|s| - 1], radix);
      var low :- DigitOf(s[|s| - 1], radix);
      Some(high * radix + low)
  }

  /** `from_str_radix` of an unsigned type: an optional `+`, at least one digit, and no
      value at or over the type's limit. */
  function ParseUnsigned(s: string, radix: nat, limit: nat): (r: Option<nat>)
    requires radix <= 16
    ensures r.Some? ==> r.value < limit
  {
    var digits := if s != "" && s[0] == '+' then s[1..] else s;
    if digits == "" then None else
      var n :- Digits(digits, radix);
      if n < limit then Some(n) else None
  }

  function Decimal(n: nat): (s: string)
    ensures s != "" && s[0] != '+'
  {
    var digit := '0' + (n % 10) as char;
    if n < 10 then [digit] else Decimal(n / 10) + [digit]
  }

  lemma {:induction false} DigitsOfDecimal(n: nat)
    ensures Digits(Decimal(n), 10) == Some(n)
  {
    var s, digit := Decimal(n), '0' + (n % 10) as char;
    assert DigitOf(digit, 10) == Some(n % 10);
    if n < 10 {
      assert s[..0] == "";
    } else {
      DigitsOfDecimal(n / 10);
      assert s[..|s| - 1] == Decimal(n / 10);
    }
  }

  /** A printed number reads back exactly when it fits the type. */
  lemma DecimalReadsBack(n: nat, limit: nat)
    ensures ParseUnsigned(Decimal(n), 10, limit) == if n < limit then Some(n) else None
  {
    DigitsOfDecimal(n);
  }

  /** `split(separator)`: never empty. */
  function Split(s: string, separator: char): (r: seq<string>)
    ensures |r| > 0
  {
    if s == "" then [""] else
      var rest := Split(s[1..], separator);
      if s[0] == separator then [""] + rest else [[s[0]] + rest[0]] + rest[1..]
  }
}
