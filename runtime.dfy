/** Primitive types and arithmetic of the .NET runtime that the timestamp code relies on:
    fixed-width integers, the exceptions it can raise, exact powers of ten and C#'s
    integer division, which truncates toward zero. */
module Runtime {

  const LongMin: int := -0x8000_0000_0000_0000
  const LongMax: int := 0x7FFF_FFFF_FFFF_FFFF
  const IntMin: int := -0x8000_0000
  const IntMax: int := 0x7FFF_FFFF

  /** C# `long` (System.Int64). */
  type Long = x: int | LongMin <= x <= LongMax
  /** C# `int` (System.Int32). */
  type Int32 = x: int | IntMin <= x <= IntMax

  /** A nullable reference or an optional value: `None` stands for `null`. */
  datatype Option<+T> = None | Some(value: T)

  /** The value of a call, or the exception it throws. */
  datatype Result<+T, +E> = Success(value: T) | Failure(error: E)

  /** The exceptions the timestamp code can raise. */
  datatype Error =
    | UnspecifiedKind     // ArgumentException: a DateTime of unknown time zone
    | TimeZoneMismatch    // ArgumentException: the DateTime's kind contradicts the explicit zone
    | KindMismatch        // ArgumentException from TimeZoneInfo.ConvertTimeToUtc: the kind is not the zone object's
    | InvalidTime         // ArgumentException from TimeZoneInfo.ConvertTimeToUtc: no such wall-clock time in the zone
    | OutOfRange          // ArgumentOutOfRangeException from DateTime arithmetic
    | NullReference       // NullReferenceException
    | DivideByZero        // DivideByZeroException from integer division

  /** The errors that are an ArgumentException in .NET. */
  predicate IsArgumentException(e: Error)
  {
    e == UnspecifiedKind || e == TimeZoneMismatch || e == KindMismatch || e == InvalidTime
  }

  function Abs(x: int): nat { if x < 0 then -x else x }

  /** 10^n, exactly. */
  function Pow10(n: nat): (r: nat)
    ensures r >= 1
    ensures n > 0 ==> r % 10 == 0
  {
    if n == 0 then 1 else 10 * Pow10(n - 1)
  }

  lemma {:induction false} Pow10Add(a: nat, b: nat)
    ensures Pow10(a + b) == Pow10(a) * Pow10(b)
  {
    if a > 0 {
      Pow10Add(a - 1, b);
      assert Pow10(a + b) == 10 * Pow10(a - 1 + b);
    }
  }

  /** q is a divided by b rounded toward zero: its magnitude is the largest whose multiple
      of b does not exceed |a|, and it carries the sign of a. */
  predicate IsTruncatedQuotient(q: int, a: int, b: int)
  {
    Abs(q) * b <= Abs(a) < (Abs(q) + 1) * b && (a >= 0 ==> q >= 0) && (a <= 0 ==> q <= 0)
  }

  /** Integer division as C# performs it on `long`. */
  function TruncDiv(a: int, b: int): (q: int)
    requires b > 0
    ensures IsTruncatedQuotient(q, a, b)
  {
    var m := Abs(a) / b;
    DivBounds(Abs(a), b, m);
    if a >= 0 then m else -m
  }

  lemma DivBounds(n: nat, b: int, m: int)
    requires b > 0 && m == n / b
    ensures m >= 0 && m * b <= n < (m + 1) * b
  {
    assert n == m * b + n % b;
  }

  /** The two bounds and the sign pin the truncated quotient down: it is the only such number. */
  lemma TruncDivUnique(a: int, b: int, q: int)
    requires b > 0 && IsTruncatedQuotient(q, a, b)
    ensures q == TruncDiv(a, b)
  {
    var p := TruncDiv(a, b);
    if Abs(q) < Abs(p) {
      MulMono(Abs(q) + 1, Abs(p), b);
    } else if Abs(p) < Abs(q) {
      MulMono(Abs(p) + 1, Abs(q), b);
    }
  }

  lemma MulMono(x: int, y: int, b: int)
    requires x <= y && b >= 0
    ensures x * b <= y * b
  {
  }

  /** Dividing an exact multiple gives back the multiplier, whatever its sign. */
  lemma TruncDivExact(v: int, b: int)
    requires b > 0
    ensures TruncDiv(v * b, b) == v
  {
    assert Abs(v * b) == Abs(v) * b by {
      if v < 0 { assert -(v * b) == (-v) * b; }
    }
    assert (Abs(v) + 1) * b == Abs(v) * b + b;
    TruncDivUnique(v * b, b, v);
  }

  /** Truncating twice is truncating once by the product of the divisors. */
  lemma TruncDivNested(a: int, b: int, c: int)
    requires b > 0 && c > 0
    ensures TruncDiv(TruncDiv(a, b), c) == TruncDiv(a, b * c)
  {
    var p := TruncDiv(a, b);
    var q := TruncDiv(p, c);
    NestedBounds(Abs(a), Abs(p), Abs(q), b, c);
    TruncDivUnique(a, b * c, q);
  }

  lemma NestedBounds(x: nat, y: nat, z: nat, b: int, c: int)
    requires b > 0 && c > 0
    requires y * b <= x < (y + 1) * b
    requires z * c <= y < (z + 1) * c
    ensures z * (b * c) <= x < (z + 1) * (b * c)
  {
    MulMono(z * c, y, b);
    assert z * (b * c) == (z * c) * b;
    MulMono(y + 1, (z + 1) * c, b);
    assert (z + 1) * (b * c) == ((z + 1) * c) * b;
  }

  /** Truncating division keeps the order of its dividends. */
  lemma TruncDivMono(a1: int, a2: int, b: int)
    requires b > 0 && a1 <= a2
    ensures TruncDiv(a1, b) <= TruncDiv(a2, b)
  {
    var q1, q2 := TruncDiv(a1, b), TruncDiv(a2, b);
    if q1 > q2 {
      if a1 >= 0 {
        MulMono(q2 + 1, q1, b);
      } else if a2 <= 0 {
        MulMono(-q1 + 1, -q2, b);
      }
    }
  }
}
