/** The arithmetic of the segmented ConcurrentHashMap that does not touch its
    tables: the supplemental hash, the constructor's rounding of the
    concurrency level and capacity to powers of two, the segment and bucket
    indices, and the thresholds derived from the load factor. */
module MapSizing {
  import opened Common

  const DEFAULT_INITIAL_CAPACITY: int := 16
  const DEFAULT_CONCURRENCY_LEVEL: int := 16
  const MAXIMUM_CAPACITY: int := 0x4000_0000   // 1 << 30
  const MIN_SEGMENT_TABLE_CAPACITY: int := 2
  const MAX_SEGMENTS: int := 0x1_0000          // 1 << 16

  /** The Wang/Jenkins variant the map applies on top of hashCode (with the
      alternative-hashing seed 0, so the key's hashCode enters unchanged).
      Java's int additions and shifts wrap exactly like bv32 arithmetic, and
      `>>>` is the logical shift `>>` on bit vectors. */
  function Spread(h: bv32): bv32 {
    var h1 := h + ((h << 15) ^ 0xffffcd7d);
    var h2 := h1 ^ (h1 >> 10);
    var h3 := h2 + (h2 << 3);
    var h4 := h3 ^ (h3 >> 6);
    var h5 := h4 + ((h4 << 2) + (h4 << 14));
    h5 ^ (h5 >> 16)
  }

  /** The mixer's constants pinned on sample inputs: hash codes 0, 1 and
      0x12345678 spread to these values. */
  lemma SpreadSamples()
    ensures Spread(0) == 0xa78baef2
    ensures Spread(1) == 0x4b439d4a
    ensures Spread(0x12345678) == 0xfda9eab3
  {
  }

  /** The load factor, a rational num/den for the float of the source. It is
      always written with den > 0, the canonical form, so Positive() is
      exactly Java's `loadFactor > 0`. */
  datatype LoadFactor = LoadFactor(num: int, den: int)
  {
    predicate Positive() { num > 0 && den > 0 }
  }

  const DEFAULT_LOAD_FACTOR: LoadFactor := LoadFactor(3, 4)

  /** `(int) (cap * loadFactor)`: the product rounded toward zero, saturated at
      Integer.MAX_VALUE as Java's float-to-int conversion does. */
  function Threshold(cap: nat, lf: LoadFactor): (r: int)
    requires lf.Positive()
    ensures 0 <= r <= INT_MAX
    ensures r <= cap * lf.num / lf.den
    ensures cap * lf.num / lf.den <= INT_MAX ==> r == cap * lf.num / lf.den
  {
    var t := cap * lf.num / lf.den;
    if t > INT_MAX then INT_MAX else t
  }

  /** The segment a hash selects: `(h >>> segmentShift) & segmentMask`. Java
      takes an int shift count modulo 32 (a shift of 32 leaves h as it is), and
      `& segmentMask` with segmentMask == ssize - 1 keeps h modulo ssize. */
  function SegmentIndex(h: bv32, segmentShift: nat, ssize: nat): (r: nat)
    requires ssize > 0
    ensures r < ssize
  {
    Unsigned(h >> (segmentShift % 32)) % ssize
  }

  /** The shape the constructor computes. */
  datatype Sizing = Sizing(sshift: nat, ssize: nat, segmentShift: int, segmentMask: int,
                           cap: nat, threshold: int)

  /** What the constructor promises about a sizing for these arguments. */
  predicate SizedFor(s: Sizing, initialCapacity: int, lf: LoadFactor, concurrencyLevel: int)
    requires lf.Positive()
  {
    var level := Min(concurrencyLevel, MAX_SEGMENTS);
    var wanted := Min(initialCapacity, MAXIMUM_CAPACITY);
    // ssize is the least power of two at least the (bounded) concurrency level
    && s.ssize == Pow2(s.sshift) && s.ssize >= level
    && (s.sshift == 0 || Pow2(s.sshift - 1) < level)
    && s.segmentShift == 32 - s.sshift && s.segmentMask == s.ssize - 1
    // cap is the least power of two, at least 2, giving room for `wanted` entries
    && IsPow2(s.cap) && s.cap >= MIN_SEGMENT_TABLE_CAPACITY
    && s.cap * s.ssize >= wanted
    && (s.cap == MIN_SEGMENT_TABLE_CAPACITY || (s.cap / 2) * s.ssize < wanted)
    && s.threshold == Threshold(s.cap, lf)
  }

  function Min(a: int, b: int): int { if a < b then a else b }

  lemma {:induction false} Pow2Monotone(a: nat, b: nat)
    requires a <= b
    ensures Pow2(a) <= Pow2(b)
    decreases b
  {
    if a < b {
      Pow2Monotone(a, b - 1);
    }
  }

  lemma Pow2Below(a: nat, b: nat)
    requires Pow2(a) < Pow2(b)
    ensures a < b
  {
    if a >= b {
      Pow2Monotone(b, a);
    }
  }

  lemma Pow2Constants()
    ensures Pow2(16) == MAX_SEGMENTS && Pow2(30) == MAXIMUM_CAPACITY
  {
    assert Pow2(4) == 16;
    Pow2Sum(4, 4);
    Pow2Sum(8, 8);
    Pow2Sum(16, 8);
    Pow2Sum(24, 4);
    Pow2Sum(28, 2);
  }

  lemma {:induction false} Pow2Sum(a: nat, b: nat)
    ensures Pow2(a + b) == Pow2(a) * Pow2(b)
    decreases b
  {
    if b > 0 {
      Pow2Sum(a, b - 1);
      assert Pow2(a + b) == 2 * Pow2(a + b - 1);
    }
  }

  /** The constructor's rounded-up quotient c of w by n: room for w, and the
      least such multiple; it stays within MAXIMUM_CAPACITY when w does. */
  lemma CeilingDivision(w: int, n: int, c: int)
    requires 0 <= w <= MAXIMUM_CAPACITY && n > 0
    requires c == if (w / n) * n < w then w / n + 1 else w / n
    ensures c * n >= w && (c - 1) * n < w
    ensures 0 <= c <= MAXIMUM_CAPACITY
  {
    var q := w / n;
    assert q * n + w % n == w;
    assert (q + 1) * n == q * n + n;
    assert (q - 1) * n == q * n - n;
    if c > MAXIMUM_CAPACITY {
      BelowCeiling(MAXIMUM_CAPACITY, c, n, w);
      MulAtLeast(n, MAXIMUM_CAPACITY);
    }
  }

  /** A capacity cap >= c, with cap / 2 < c unless it is the minimum, inherits
      the two bounds of the rounded-up quotient c. */
  lemma CapacityFits(cap: int, c: int, n: int, w: int)
    requires n > 0 && cap >= c && cap >= MIN_SEGMENT_TABLE_CAPACITY
    requires c * n >= w && (c - 1) * n < w
    requires cap == MIN_SEGMENT_TABLE_CAPACITY || cap / 2 < c
    ensures cap * n >= w
    ensures cap == MIN_SEGMENT_TABLE_CAPACITY || (cap / 2) * n < w
  {
    MulMonotone(c, cap, n);
    if cap != MIN_SEGMENT_TABLE_CAPACITY {
      BelowCeiling(cap / 2, c, n, w);
    }
  }

  lemma MulMonotone(a: int, b: int, n: int)
    requires a <= b && n >= 0
    ensures a * n <= b * n
  {
    assert b * n - a * n == (b - a) * n;
  }

  /** `x < ceil(w / n)` in integers: if (c - 1) * n < w then any x <= c - 1 has x * n < w. */
  lemma BelowCeiling(x: int, c: int, n: int, w: int)
    requires n > 0 && 0 <= x <= c - 1 && (c - 1) * n < w
    ensures x * n < w
  {
    assert x * n <= (c - 1) * n by {
      assert (c - 1) * n - x * n == (c - 1 - x) * n;
    }
  }

  /** The loop `while (ssize < concurrencyLevel) { ++sshift; ssize <<= 1; }`:
      the least power of two at least level, and its exponent. */
  method SegmentCount(level: int) returns (sshift: nat, ssize: int)
    requires level <= MAX_SEGMENTS
    ensures ssize == Pow2(sshift) && 1 <= ssize && ssize >= level && ssize <= MAX_SEGMENTS
    ensures sshift <= 16 && (sshift == 0 || Pow2(sshift - 1) < level)
  {
    Pow2Constants();
    sshift := 0;
    ssize := 1;
    while ssize < level
      invariant ssize == Pow2(sshift) && sshift <= 16
      invariant sshift == 0 || Pow2(sshift - 1) < level
    {
      Pow2Below(sshift, 16);
      sshift := sshift + 1;
      ssize := 2 * ssize;
    }
    Pow2Monotone(sshift, 16);
  }

  /** The loop `while (cap < c) cap <<= 1;` from MIN_SEGMENT_TABLE_CAPACITY:
      the least power of two, at least 2, that is at least c. */
  method SegmentCapacity(c: int) returns (cap: int)
    requires c <= MAXIMUM_CAPACITY
    ensures IsPow2(cap) && cap >= MIN_SEGMENT_TABLE_CAPACITY && cap >= c && cap <= MAXIMUM_CAPACITY
    ensures cap == MIN_SEGMENT_TABLE_CAPACITY || cap / 2 < c
  {
    Pow2Constants();
    var k: nat := 1;
    cap := MIN_SEGMENT_TABLE_CAPACITY;
    while cap < c
      invariant cap == Pow2(k) && cap >= MIN_SEGMENT_TABLE_CAPACITY
      invariant cap == MIN_SEGMENT_TABLE_CAPACITY || cap / 2 < c
      invariant cap <= MAXIMUM_CAPACITY
    {
      Pow2Below(k, 30);
      Pow2Monotone(k + 1, 30);
      k := k + 1;
      cap := 2 * cap;
    }
    Pow2IsPow2(k);
  }

  /** The sizing done by ConcurrentHashMap(initialCapacity, loadFactor,
      concurrencyLevel) before it allocates anything. */
  method ComputeSizing(initialCapacity: int, lf: LoadFactor, concurrencyLevel: int)
    returns (r: Result<Sizing>)
    ensures r.Err? <==> !lf.Positive() || initialCapacity < 0 || concurrencyLevel <= 0
    ensures r.Err? ==> r.error == IllegalArgument
    ensures r.Ok? ==> lf.Positive() && SizedFor(r.value, initialCapacity, lf, concurrencyLevel)
    ensures r.Ok? ==> r.value.ssize <= MAX_SEGMENTS && r.value.cap <= MAXIMUM_CAPACITY
  {
    if !lf.Positive() || initialCapacity < 0 || concurrencyLevel <= 0 {
      return Err(IllegalArgument);
    }
    var level := concurrencyLevel;
    if level > MAX_SEGMENTS {
      level := MAX_SEGMENTS;
    }
    var sshift, ssize := SegmentCount(level);
    var wanted := initialCapacity;
    if wanted > MAXIMUM_CAPACITY {
      wanted := MAXIMUM_CAPACITY;
    }
    var c := wanted / ssize;
    if c * ssize < wanted {
      c := c + 1;
    }
    CeilingDivision(wanted, ssize, c);
    var cap := SegmentCapacity(c);
    CapacityFits(cap, c, ssize, wanted);
    r := Ok(Sizing(sshift, ssize, 32 - sshift, ssize - 1, cap, Threshold(cap, lf)));
  }
}
