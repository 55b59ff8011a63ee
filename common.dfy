/** Vocabulary shared by the models: Java's null as Option, Java's exceptions as
    Result/Outcome, powers of two, and Java's 32-bit int arithmetic. */
module Common {

  /** A Java reference that may be null. */
  datatype Option<T> = None | Some(value: T)

  /** The Java exceptions the modelled operations raise. */
  datatype Error =
    | NullPointer          // NullPointerException
    | IllegalArgument      // IllegalArgumentException
    | IllegalState         // IllegalStateException
    | NoSuchElement        // NoSuchElementException
    | MalformedName        // InternalError("Malformed class name")
    | IndexOutOfBounds     // ArrayIndexOutOfBoundsException

  /** A value, or the exception thrown instead of returning it. */
  datatype Result<T> = Ok(value: T) | Err(error: Error)

  /** A void operation that completed, or the exception it threw. */
  datatype Outcome = Pass | Fail(error: Error)

  const INT_MAX: int := 0x7fff_ffff
  const INT_MIN: int := -0x8000_0000
  const TWO_TO_32: int := 0x1_0000_0000

  function Pow2(k: nat): (r: nat)
    ensures r >= 1
  {
    if k == 0 then 1 else 2 * Pow2(k - 1)
  }

  predicate IsPow2(n: int)
    decreases if n < 0 then 0 else n
  {
    n >= 1 && (n == 1 || (n % 2 == 0 && IsPow2(n / 2)))
  }

  lemma {:induction false} Pow2IsPow2(k: nat)
    ensures IsPow2(Pow2(k))
  {
    if k > 0 {
      Pow2IsPow2(k - 1);
      assert Pow2(k) / 2 == Pow2(k - 1);
    }
  }

  /** Doubling keeps a power of two a power of two. */
  lemma DoubleIsPow2(n: int)
    requires IsPow2(n)
    ensures IsPow2(2 * n)
  {
    assert (2 * n) / 2 == n;
  }

  /** Every power of two above 1 is even. */
  lemma Pow2Even(n: int)
    requires IsPow2(n) && n > 1
    ensures n % 2 == 0
  {
  }

  /** A power of two below another power of two is at most half of it. */
  lemma {:induction false} DoubleWithin(n: int, m: int)
    requires IsPow2(n) && IsPow2(m) && n < m
    ensures 2 * n <= m
    decreases m
  {
    if n > 1 {
      DoubleWithin(n / 2, m / 2);
    }
  }

  /** Java's narrowing of an integer to a 32-bit two's-complement int. */
  function Wrap32(x: int): (r: int)
    ensures INT_MIN <= r <= INT_MAX
    ensures (x - r) % TWO_TO_32 == 0
    ensures INT_MIN <= x <= INT_MAX ==> r == x
  {
    var m := x % TWO_TO_32;
    if m > INT_MAX then m - TWO_TO_32 else m
  }

  /** The unsigned value of a 32-bit hash. */
  function Unsigned(h: bv32): (r: nat)
    ensures r < TWO_TO_32
  {
    h as int
  }

  /** The bucket a hash selects in a table of `len` slots: Java writes this
      `(len - 1) & h`, which for a power-of-two `len` keeps the low bits of h,
      i.e. the unsigned value of h modulo len. */
  function BucketIndex(h: bv32, len: int): (r: nat)
    requires len > 0
    ensures r < len
  {
    Unsigned(h) % len
  }

  // ---- small facts about division that the solver needs spelled out ----

  lemma MulAtLeast(a: int, c: int)
    requires a >= 1 && c > 0
    ensures a * c >= c
  {
  }

  /** Division and remainder are determined by any decomposition x == q*c + r. */
  lemma DivModUnique(x: int, c: int, q: int, r: int)
    requires c > 0 && 0 <= r < c && x == q * c + r
    ensures x % c == r && x / c == q
  {
    var q' := x / c;
    var r' := x % c;
    var d := q - q';
    assert d * c == r' - r by {
      assert q * c - q' * c == (q - q') * c;
    }
    if d >= 1 {
      MulAtLeast(d, c);
    }
  }

  /** Doubling the modulus splits each residue class in two: x mod 2c is x mod c
      or x mod c + c. */
  lemma ModDouble(x: int, c: int)
    requires c > 0
    ensures x % (2 * c) == x % c || x % (2 * c) == x % c + c
    ensures x % (2 * c) % c == x % c
    ensures x % (2 * c) < c ==> x % (2 * c) == x % c
  {
    var r := x % (2 * c);
    var q := x / (2 * c);
    assert x == (2 * q) * c + r;
    if r < c {
      DivModUnique(x, c, 2 * q, r);
      DivModUnique(r, c, 0, r);
    } else {
      assert x == (2 * q + 1) * c + (r - c);
      DivModUnique(x, c, 2 * q + 1, r - c);
      DivModUnique(r, c, 1, r - c);
    }
  }
}
