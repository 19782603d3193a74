/** The `char` data of C++ `std::string`: one byte per element; and the
    decimal text that `printf("%d")` and `ostream << int` write. */
module Text {
  import opened Outcomes

  /** One byte, as the unsigned value of its bits. */
  type Byte = b: int | 0 <= b < 256

  /** A `std::string`: a sequence of bytes. */
  type Bytes = seq<Byte>

  /** Decimal digits of `n`, most significant first, as `%d` writes them. */
  function DecimalDigits(n: nat): (s: string)
    ensures |s| >= 1
    ensures forall k :: 0 <= k < |s| ==> '0' <= s[k] <= '9'
  {
    if n < 10 then [(48 + n) as char] else DecimalDigits(n / 10) + [(48 + n % 10) as char]
  }

  /** `%d` of an `int`. */
  function Decimal(i: int): (s: string)
    ensures |s| >= 1
  {
    if i < 0 then "-" + DecimalDigits(-i) else DecimalDigits(i)
  }

  /** Reads a string of decimal digits back as a number. */
  function DigitsValue(s: string): nat
  {
    if s == [] then 0
    else DigitsValue(s[..|s| - 1]) * 10 + (if '0' <= s[|s| - 1] <= '9' then s[|s| - 1] as nat - 48 else 0)
  }

  /** The printed digits are exactly the number: reading them back gives `n`. */
  lemma {:induction false} DecimalDigitsRoundTrip(n: nat)
    ensures DigitsValue(DecimalDigits(n)) == n
  {
    if n >= 10 {
      DecimalDigitsRoundTrip(n / 10);
      var s := DecimalDigits(n);
      assert s[..|s| - 1] == DecimalDigits(n / 10);
    }
  }

  /** `s.find(c)`: the first position of `c` in `s`, if any. */
  function Find(s: string, c: char): (r: Option<nat>)
    ensures r.Some? ==> r.value < |s| && s[r.value] == c
    ensures r.Some? ==> forall j :: 0 <= j < r.value ==> s[j] != c
    ensures r.None? ==> forall j :: 0 <= j < |s| ==> s[j] != c
  {
    if s == [] then None
    else if s[0] == c then Some(0)
    else match Find(s[1..], c)
      case None => None
      case Some(i) => Some(i + 1)
  }
}
