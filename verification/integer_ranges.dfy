/** CSO/Hw1/3.1.c: the minimum and maximum of the signed and unsigned 8-, 16-
    and 32-bit C integer types, computed with a left shift and bitwise NOT and
    compared with the <limits.h> constants.

    A `w`-bit register holds a bit pattern, written here as the number
    `0 <= x < 2^w` it denotes when read as unsigned. C evaluates every one of
    these expressions in 32-bit `int` after integer promotion, and narrows the
    result on assignment; both conversions are written out. */
module IntegerRanges {

  // The <limits.h> constants of a platform with 8-bit char, 16-bit short and
  // 32-bit int.
  const SCHAR_MIN: int := -128
  const SCHAR_MAX: int := 127
  const UCHAR_MAX: int := 255
  const SHRT_MIN: int := -32768
  const SHRT_MAX: int := 32767
  const USHRT_MAX: int := 65535
  const INT_MIN: int := -2147483648
  const INT_MAX: int := 2147483647
  const UINT_MAX: int := 4294967295

  /** Width of `int`, the type every expression is evaluated in. */
  const INT_BITS: nat := 32

  /** The least and greatest value of a type, as the program prints them. */
  datatype Range = Range(min: int, max: int)

  function Pow2(n: nat): (r: nat)
    ensures r >= 1
  {
    if n == 0 then 1 else 2 * Pow2(n - 1)
  }

  lemma {:induction false} Pow2Monotone(m: nat, n: nat)
    requires m <= n
    ensures Pow2(m) <= Pow2(n)
    decreases n
  {
    if m < n {
      Pow2Monotone(m, n - 1);
    }
  }

  /** `~x` on a `w`-bit register, bit by bit from the lowest. */
  function BitNot(x: nat, w: nat): (r: nat)
    requires x < Pow2(w)
    ensures r < Pow2(w)
    decreases w
  {
    if w == 0 then 0 else (1 - x % 2) + 2 * BitNot(x / 2, w - 1)
  }

  /** `x << s` on a `w`-bit register: bits shifted past the top are lost. */
  function ShiftLeft(x: nat, s: nat, w: nat): (r: nat)
    ensures r < Pow2(w)
  {
    (x * Pow2(s)) % Pow2(w)
  }

  /** Conversion to a `w`-bit type keeps the low `w` bits. */
  function Narrow(x: nat, w: nat): (r: nat)
    ensures r < Pow2(w)
  {
    x % Pow2(w)
  }

  /** Two's-complement reading of a `w`-bit pattern (what `%d` prints). */
  function AsSigned(x: nat, w: nat): (r: int)
    requires 1 <= w && x < Pow2(w)
    ensures -(Pow2(w - 1) as int) <= r < Pow2(w - 1)
    ensures r == x || r == x as int - Pow2(w)
  {
    if x < Pow2(w - 1) then x else x as int - Pow2(w)
  }

  /** Integer promotion of a signed `from`-bit value to `to` bits copies the
      sign bit into the new high bits. */
  function SignExtend(x: nat, from: nat, to: nat): (r: nat)
    requires 1 <= from <= to && x < Pow2(from)
    ensures r < Pow2(to) && AsSigned(r, to) == AsSigned(x, from)
  {
    Pow2Monotone(from - 1, to - 1);
    Pow2Monotone(from, to);
    if x < Pow2(from - 1) then x else x + (Pow2(to) - Pow2(from))
  }

  /** The signed minimum and maximum of the `w`-bit type:
      `smin = (T)(1 << (w - 1))` and `smax = ~smin`, where `~` sees `smin`
      promoted to `int` and the result is narrowed back. */
  function SignedRange(w: nat): (r: Range)
    requires 1 <= w <= INT_BITS
    ensures r == Range(-(Pow2(w - 1) as int), Pow2(w - 1) - 1)
  {
    SignedRangeIn(w, INT_BITS)
  }

  /** `SignedRange` with `int` taken as `n` bits wide. */
  function SignedRangeIn(w: nat, n: nat): (r: Range)
    requires 1 <= w <= n
    ensures r == Range(-(Pow2(w - 1) as int), Pow2(w - 1) - 1)
  {
    var smin := Narrow(ShiftLeft(1, w - 1, n), w);
    SignBitShift(w, n);
    var extended := SignExtend(smin, w, n);
    BitNotNegates(extended, n);
    var smax := Narrow(BitNot(extended, n), w);
    SignedMaxNarrow(w, n, BitNot(extended, n));
    Range(AsSigned(smin, w), AsSigned(smax, w))
  }

  /** The unsigned minimum and maximum of the `w`-bit type: `0` and `(T)~0`. */
  function UnsignedRange(w: nat): (r: Range)
    requires w <= INT_BITS
    ensures r == Range(0, Pow2(w) - 1)
  {
    UnsignedRangeIn(w, INT_BITS)
  }

  /** `UnsignedRange` with `int` taken as `n` bits wide. */
  function UnsignedRangeIn(w: nat, n: nat): (r: Range)
    requires w <= n
    ensures r == Range(0, Pow2(w) - 1)
  {
    NotZeroNarrow(w, n);
    Range(0, Narrow(BitNot(0, n), w))
  }

  /** `~0` narrowed to `w` bits is all ones. */
  lemma {:induction false} NotZeroNarrow(w: nat, n: nat)
    requires w <= n
    ensures Narrow(BitNot(0, n), w) == Pow2(w) - 1
  {
    BitNotComplement(0, n);
    AllOnesNarrow(w, n);
  }

  /** Division with remainder has one answer. */
  lemma {:induction false} DivModUnique(x: int, m: int, q: int, r: int)
    requires m > 0 && 0 <= r < m && x == m * q + r
    ensures x % m == r
  {
    var q', r' := x / m, x % m;
    assert x == m * q' + r';
    if q' > q {
      assert m * q' == m * q + m * (q' - q);
      MulAtLeast(m, q' - q);
    } else if q' < q {
      assert m * q == m * q' + m * (q - q');
      MulAtLeast(m, q - q');
    }
  }

  lemma {:induction false} MulAtLeast(m: int, d: int)
    requires m > 0 && d >= 1
    ensures m * d >= m
  {
  }

  /** `1 << (w - 1)` fits in `int` and in the `w`-bit type. */
  lemma {:induction false} SignBitShift(w: nat, n: nat)
    requires 1 <= w <= n
    ensures ShiftLeft(1, w - 1, n) == Pow2(w - 1)
    ensures Narrow(Pow2(w - 1), w) == Pow2(w - 1)
  {
    Pow2Monotone(w - 1, n - 1);
    assert Pow2(n) == 2 * Pow2(n - 1);
    DivModUnique(Pow2(w - 1), Pow2(n), 0, Pow2(w - 1));
    assert Pow2(w) == 2 * Pow2(w - 1);
    DivModUnique(Pow2(w - 1), Pow2(w), 0, Pow2(w - 1));
  }

  /** `~smin` in `int` is `2^(w-1) - 1`, and narrowing keeps it. */
  lemma {:induction false} SignedMaxNarrow(w: nat, n: nat, b: nat)
    requires 1 <= w <= n && b < Pow2(n)
    requires AsSigned(b, n) == Pow2(w - 1) - 1
    ensures Narrow(b, w) == Pow2(w - 1) - 1
  {
    assert b == Pow2(w - 1) - 1;
    assert Pow2(w) == 2 * Pow2(w - 1);
    DivModUnique(b, Pow2(w), 0, b);
  }

  /** All ones narrowed to fewer bits is still all ones. */
  lemma {:induction false} AllOnesNarrow(w: nat, n: nat)
    requires w <= n
    ensures Narrow(Pow2(n) - 1, w) == Pow2(w) - 1
  {
    var m, k := Pow2(w), Pow2(n - w);
    Pow2Add(w, n - w);
    SplitAllOnes(m, k);
    DivModUnique(Pow2(n) - 1, m, k - 1, m - 1);
  }

  lemma {:induction false} SplitAllOnes(m: int, k: int)
    ensures m * k - 1 == m * (k - 1) + (m - 1)
  {
  }

  /** Bitwise NOT of a `w`-bit pattern is its complement to all ones. */
  lemma {:induction false} BitNotComplement(x: nat, w: nat)
    requires x < Pow2(w)
    ensures BitNot(x, w) == Pow2(w) - 1 - x
    decreases w
  {
    if w > 0 {
      BitNotComplement(x / 2, w - 1);
    }
  }

  /** Why `~min` is the maximum: in two's complement `~x` is `-x - 1`. */
  lemma BitNotNegates(x: nat, w: nat)
    requires 1 <= w && x < Pow2(w)
    ensures AsSigned(BitNot(x, w), w) == -AsSigned(x, w) - 1
  {
    BitNotComplement(x, w);
  }

  lemma {:induction false} Pow2Add(m: nat, n: nat)
    ensures Pow2(m + n) == Pow2(m) * Pow2(n)
    decreases n
  {
    if n > 0 {
      Pow2Add(m, n - 1);
    }
  }

  lemma Pow2Values()
    ensures Pow2(7) == 128 && Pow2(8) == 256
    ensures Pow2(15) == 32768 && Pow2(16) == 65536
    ensures Pow2(31) == 2147483648 && Pow2(32) == 4294967296
  {
    assert Pow2(8) == 256;
    Pow2Add(8, 7);
    Pow2Add(8, 8);
    Pow2Add(16, 15);
    Pow2Add(16, 16);
  }

  /** Lines 7-10: the computed signed char bounds are SCHAR_MIN and SCHAR_MAX, and
      every char value lies between them. */
  lemma SignedCharLimits()
    ensures SignedRange(8) == Range(SCHAR_MIN, SCHAR_MAX)
    ensures forall x: nat {:trigger AsSigned(x, 8)} :: x < 256 ==> SCHAR_MIN <= AsSigned(x, 8) <= SCHAR_MAX
  {
    Pow2Values();
  }

  /** The computed unsigned char bounds are 0 and UCHAR_MAX. */
  lemma UnsignedCharLimits()
    ensures UnsignedRange(8) == Range(0, UCHAR_MAX)
  {
    Pow2Values();
  }

  /** Lines 13-16 (line 13 gives -32768): the computed signed short bounds are SHRT_MIN and SHRT_MAX, and
      every short value lies between them. */
  lemma SignedShortLimits()
    ensures SignedRange(16) == Range(SHRT_MIN, SHRT_MAX)
    ensures forall x: nat {:trigger AsSigned(x, 16)} :: x < 65536 ==> SHRT_MIN <= AsSigned(x, 16) <= SHRT_MAX
  {
    Pow2Values();
  }

  /** The computed unsigned short bounds are 0 and USHRT_MAX. */
  lemma UnsignedShortLimits()
    ensures UnsignedRange(16) == Range(0, USHRT_MAX)
  {
    Pow2Values();
  }

  /** Lines 19-22: the computed signed int bounds are INT_MIN and INT_MAX, and
      every int value lies between them. */
  lemma SignedIntLimits()
    ensures SignedRange(32) == Range(INT_MIN, INT_MAX)
    ensures forall x: nat {:trigger AsSigned(x, 32)} :: x < 4294967296 ==> INT_MIN <= AsSigned(x, 32) <= INT_MAX
  {
    Pow2Values();
  }

  /** The computed unsigned int bounds are 0 and UINT_MAX. */
  lemma UnsignedIntLimits()
    ensures UnsignedRange(32) == Range(0, UINT_MAX)
  {
    Pow2Values();
  }
}
