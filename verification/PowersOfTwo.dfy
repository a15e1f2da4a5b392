/** Powers of two, and the rounding helpers built on them
    (pkg/shares/powers_of_two.go, pkg/da/data_availability_header.go). */
module PowersOfTwo {
  import opened Results

  function Pow2(k: nat): (r: nat)
    ensures r >= 1
  {
    if k == 0 then 1 else 2 * Pow2(k - 1)
  }

  /** `n` is a power of two. */
  predicate IsPow2(n: int)
    decreases n
  {
    n == 1 || (n > 1 && n % 2 == 0 && IsPow2(n / 2))
  }

  /** The exact base-two logarithm of a power of two. */
  function Log2(n: nat): (k: nat)
    requires IsPow2(n)
    ensures Pow2(k) == n
  {
    if n == 1 then 0 else 1 + Log2(n / 2)
  }

  lemma {:induction false} Pow2IsPow2(k: nat)
    ensures IsPow2(Pow2(k))
  {
    if k > 0 {
      Pow2IsPow2(k - 1);
      assert Pow2(k) / 2 == Pow2(k - 1);
    }
  }

  lemma {:induction false} Pow2Add(a: nat, b: nat)
    ensures Pow2(a + b) == Pow2(a) * Pow2(b)
  {
    if a > 0 {
      Pow2Add(a - 1, b);
      assert Pow2(a + b) == 2 * Pow2(a - 1 + b);
      assert 2 * (Pow2(a - 1) * Pow2(b)) == (2 * Pow2(a - 1)) * Pow2(b);
    }
  }

  lemma {:induction false} Pow2Monotone(a: nat, b: nat)
    requires a <= b
    ensures Pow2(a) <= Pow2(b)
    ensures a < b ==> 2 * Pow2(a) <= Pow2(b)
    decreases b
  {
    if a < b {
      Pow2Monotone(a, b - 1);
    }
  }

  lemma {:induction false} Log2Monotone(a: nat, b: nat)
    requires IsPow2(a) && IsPow2(b)
    ensures a < b <==> Log2(a) < Log2(b)
    ensures a < b ==> 2 * a <= b
  {
    if Log2(a) < Log2(b) {
      Pow2Monotone(Log2(a), Log2(b));
    } else {
      Pow2Monotone(Log2(b), Log2(a));
    }
  }

  /** A smaller power of two divides a larger one. */
  lemma Pow2Divides(a: nat, b: nat) returns (q: nat)
    requires IsPow2(a) && IsPow2(b) && a <= b
    ensures q >= 1 && b == q * a
  {
    Log2Monotone(b, a);
    var d := Log2(b) - Log2(a);
    Pow2Add(d, Log2(a));
    q := Pow2(d);
  }

  /** The least power of two that is at least `n`. */
  function RoundUp(n: int): (r: nat)
    ensures r >= 1 && r >= n
  {
    if n <= 1 then 1 else 2 * RoundUp((n + 1) / 2)
  }

  lemma {:induction false} RoundUpIsPow2(n: int)
    ensures IsPow2(RoundUp(n))
    ensures RoundUp(n) == 1 || RoundUp(n) / 2 < n
  {
    if n > 1 {
      RoundUpIsPow2((n + 1) / 2);
    }
  }

  lemma RoundUpLeast(n: int, p: nat)
    requires IsPow2(p) && p >= n
    ensures RoundUp(n) <= p
  {
    var r := RoundUp(n);
    RoundUpIsPow2(n);
    if p < r {
      Log2Monotone(p, r);
    }
  }

  method RoundUpPowerOfTwo(input: int) returns (result: nat)
    ensures result == RoundUp(input)
  {
    result := 1;
    RoundUpIsPow2(input);
    while result < input
      invariant IsPow2(result) && result <= RoundUp(input)
    {
      Log2Monotone(result, RoundUp(input));
      result := 2 * result;
    }
    RoundUpLeast(input, result);
  }

  /** The greatest power of two that is at most `n`. */
  function RoundDown(n: nat): (r: nat)
    requires n > 0
    ensures 1 <= r <= n < 2 * r
  {
    if n == 1 then 1 else 2 * RoundDown(n / 2)
  }

  lemma {:induction false} RoundDownIsPow2(n: nat)
    requires n > 0
    ensures IsPow2(RoundDown(n))
  {
    if n > 1 {
      RoundDownIsPow2(n / 2);
    }
  }

  lemma RoundDownUnique(n: nat, p: nat)
    requires n > 0 && IsPow2(p) && p <= n < 2 * p
    ensures p == RoundDown(n)
  {
    var r := RoundDown(n);
    RoundDownIsPow2(n);
    Log2Monotone(p, r);
    Log2Monotone(r, p);
  }

  /** RoundDownPowerOfTwo: the greatest power of two that is at most a positive input. */
  method RoundDownPowerOfTwo(input: int) returns (r: Result<nat>)
    ensures input <= 0 ==> r == Err(NotPositive)
    ensures input > 0 ==> r == Ok(RoundDown(input)) && IsPow2(r.value) && r.value <= input < 2 * r.value
  {
    if input <= 0 {
      return Err(NotPositive);
    }
    var roundedUp := RoundUpPowerOfTwo(input);
    RoundUpIsPow2(input);
    var result := if roundedUp == input then roundedUp else roundedUp / 2;
    RoundDownUnique(input, result);
    return Ok(result);
  }

  /** Bitwise and of two naturals. */
  function BitAnd(a: nat, b: nat): (r: nat)
  {
    if a == 0 || b == 0 then 0
    else (if a % 2 == 1 && b % 2 == 1 then 1 else 0) + 2 * BitAnd(a / 2, b / 2)
  }

  lemma {:induction false} BitAndSelf(a: nat)
    ensures BitAnd(a, a) == a
  {
    if a > 0 {
      BitAndSelf(a / 2);
    }
  }

  /** The bit trick of IsPowerOfTwo decides the property for every positive input. */
  lemma {:induction false} BitTrickDecidesPow2(n: nat)
    requires n > 0
    ensures BitAnd(n, n - 1) == 0 <==> IsPow2(n)
  {
    if n == 1 {
    } else if n % 2 == 0 {
      BitTrickDecidesPow2(n / 2);
      assert (n - 1) / 2 == n / 2 - 1;
      assert BitAnd(n, n - 1) == 2 * BitAnd(n / 2, n / 2 - 1);
    } else {
      BitAndSelf(n / 2);
      assert (n - 1) / 2 == n / 2;
      assert BitAnd(n, n - 1) == 2 * BitAnd(n / 2, n / 2);
    }
  }

  function CeilSqrtFrom(s: nat, n: nat): (r: nat)
    requires s == 0 || (s - 1) * (s - 1) < n
    ensures r * r >= n
    ensures r == 0 || (r - 1) * (r - 1) < n
    decreases n - s
  {
    if s * s >= n then s
    else
      SquareAtLeast(s);
      CeilSqrtFrom(s + 1, n)
  }

  lemma SquareAtLeast(s: nat)
    ensures s * s >= s
  {
  }

  /** ceil(sqrt(n)), computed exactly. */
  function CeilSqrt(n: nat): (r: nat)
    ensures r * r >= n
    ensures r == 0 || (r - 1) * (r - 1) < n
  {
    CeilSqrtFrom(0, n)
  }

  lemma SquareMonotone(a: nat, b: nat)
    requires a <= b
    ensures a * a <= b * b
  {
    assert a * a <= a * b <= b * b;
  }

  lemma StrictSquare(a: nat, b: nat)
    requires a < b
    ensures a * a < b * b
  {
    SquareMonotone(a, b - 1);
    assert (b - 1) * (b - 1) == b * b - 2 * b + 1;
  }

  /** Euclidean division is unique. */
  lemma DivModUnique(x: int, q: int, r: int, v: int)
    requires v > 0 && x == q * v + r && 0 <= r < v
    ensures x / v == q && x % v == r
  {
    var d := q - x / v;
    assert x == (x / v) * v + x % v;
    assert d * v == x % v - r;
    assert d >= 1 ==> d * v >= v;
    assert d <= -1 ==> d * v <= -v;
  }

  lemma {:induction false} MulSucc(x: int, y: int, v: nat)
    requires x < y
    ensures x * v + v <= y * v
    decreases v
  {
    if v > 0 {
      MulSucc(x, y, v - 1);
      assert x * v == x * (v - 1) + x && y * v == y * (v - 1) + y;
    }
  }

  lemma MulAssoc(a: int, b: int, c: int)
    ensures a * (b * c) == (a * b) * c
  {
  }

  lemma MulSub(a: int, b: int, c: int)
    ensures (a - b) * c == a * c - b * c
  {
  }

  lemma DivMonotone(a: nat, b: nat, v: nat)
    requires v > 0 && a <= b
    ensures 0 <= a / v <= b / v
  {
    if b / v < a / v {
      MulSucc(b / v, a / v, v);
    }
  }

  lemma CeilSqrtLeast(n: nat, s: nat)
    requires s * s >= n
    ensures CeilSqrt(n) <= s
  {
    var r := CeilSqrt(n);
    if s < r {
      SquareMonotone(s, r - 1);
    }
  }
}
