/**
 * Two's-complement machine integers as C# uses them: `int`, `uint`, `long`
 * and `ulong` values, unchecked wrap-around, shift counts masked to the
 * operand width, arithmetic right shift, and `/` and `%` that truncate
 * toward zero. Everything is stated over Dafny's unbounded `int`.
 */
module Machine {

  const TWO31: int := 0x8000_0000
  const TWO32: int := 0x1_0000_0000
  const TWO63: int := 0x8000_0000_0000_0000
  const TWO64: int := 0x1_0000_0000_0000_0000

  const MIN32: int := -TWO31
  const MAX32: int := TWO31 - 1
  const MIN64: int := -TWO63
  const MAX64: int := TWO63 - 1

  type i32 = x: int | MIN32 <= x <= MAX32
  type i64 = x: int | MIN64 <= x <= MAX64
  type u32 = x: int | 0 <= x < TWO32
  type u64 = x: int | 0 <= x < TWO64

  /** The faults the library can raise; none is caught internally. */
  datatype Fault =
    | DivideByZero        // System.DivideByZeroException
    | ArgumentOutOfRange  // System.ArgumentOutOfRangeException
    | InvalidArgument     // System.ArgumentException
    | Overflow            // System.OverflowException
    | IndexOutOfRange     // System.IndexOutOfRangeException

  datatype Result<+T> = Ok(value: T) | Err(fault: Fault)

  datatype Outcome = Pass | Fail(fault: Fault)

  function Pow2(k: nat): (r: nat)
    ensures r >= 1
  {
    if k == 0 then 1 else 2 * Pow2(k - 1)
  }

  lemma {:induction false} Pow2Add(a: nat, b: nat)
    ensures Pow2(a + b) == Pow2(a) * Pow2(b)
  {
    if a > 0 {
      Pow2Add(a - 1, b);
      assert Pow2(a + b) == 2 * Pow2(a - 1 + b);
    }
  }

  lemma {:induction false} Pow2Monotone(a: nat, b: nat)
    requires a <= b
    ensures Pow2(a) <= Pow2(b)
  {
    if a < b {
      Pow2Monotone(a, b - 1);
    }
  }

  /** Reinterpret the low 32 bits of `x` as a signed `int` (an unchecked `(int)` cast). */
  function Wrap32(x: int): (r: i32)
    ensures MIN32 <= x <= MAX32 ==> r == x
  {
    (x + TWO31) % TWO32 - TWO31
  }

  /** Reinterpret the low 64 bits of `x` as a signed `long`. */
  function Wrap64(x: int): (r: i64)
    ensures MIN64 <= x <= MAX64 ==> r == x
  {
    (x + TWO63) % TWO64 - TWO63
  }

  /** The low 32 bits of `x` as a `uint`. */
  function ToU32(x: int): (r: u32)
    ensures 0 <= x < TWO32 ==> r == x
  {
    x % TWO32
  }

  /** The low 64 bits of `x` as a `ulong`. */
  function ToU64(x: int): (r: u64)
    ensures 0 <= x < TWO64 ==> r == x
  {
    x % TWO64
  }

  /** Wrapping to 32 bits changes a value by a multiple of 2^32. */
  lemma Wrap32Mod(x: int)
    ensures (Wrap32(x) - x) % TWO32 == 0
  {
  }

  /** Wrapping to 64 bits changes a value by a multiple of 2^64. */
  lemma Wrap64Mod(x: int)
    ensures (Wrap64(x) - x) % TWO64 == 0
  {
  }

  /** The low 32 bits of a value differ from it by a multiple of 2^32. */
  lemma ToU32Mod(x: int)
    ensures (ToU32(x) - x) % TWO32 == 0
  {
  }

  /** A 32-bit value congruent to `n * 1024` is 0 exactly when 2^22 divides `n`. */
  lemma WrapVanishes(r: int, n: nat)
    requires MIN32 <= r <= MAX32 && n <= MAX32
    requires (r - n * 1024) % TWO32 == 0
    ensures r == 0 <==> n % 0x40_0000 == 0
  {
    var k := n / 0x40_0000;
    var m := n % 0x40_0000;
    assert n * 1024 == k * TWO32 + m * 1024;
    assert 0 <= m * 1024 < TWO32;
    assert (r - m * 1024) % TWO32 == 0;
    if r == 0 {
      assert m * 1024 == 0;
    }
  }

  lemma Wrap32Congruent(a: int, b: int)
    requires (a - b) % TWO32 == 0
    ensures Wrap32(a) == Wrap32(b)
  {
    var k := (a - b) / TWO32;
    assert a == b + k * TWO32;
  }

  lemma Wrap64Congruent(a: int, b: int)
    requires (a - b) % TWO64 == 0
    ensures Wrap64(a) == Wrap64(b)
  {
    var k := (a - b) / TWO64;
    assert a == b + k * TWO64;
  }

  /** Two integers with the same low 32 bits are the same `uint`. */
  lemma ToU32Congruent(a: int, b: int)
    requires (a - b) % TWO32 == 0
    ensures ToU32(a) == ToU32(b)
  {
    var k := (a - b) / TWO32;
    assert a == b + k * TWO32;
  }

  /** Wrapping an operand first changes nothing in a wrapped sum. */
  lemma Wrap32AddLeft(a: int, b: int)
    ensures Wrap32(Wrap32(a) + b) == Wrap32(a + b)
  {
    Wrap32Congruent(Wrap32(a) + b, a + b);
  }

  lemma Wrap32AddRight(a: int, b: int)
    ensures Wrap32(a + Wrap32(b)) == Wrap32(a + b)
  {
    Wrap32Congruent(a + Wrap32(b), a + b);
  }

  /** Wrapped addition is associative. */
  lemma Wrap32Associative(x: int, y: int, z: int)
    ensures Wrap32(Wrap32(x + y) + z) == Wrap32(x + Wrap32(y + z))
  {
    Wrap32AddLeft(x + y, z);
    Wrap32AddRight(x, y + z);
  }

  /** Adding then subtracting (or the reverse) under wrap-around gives the value back. */
  lemma Wrap32AddSub(x: i32, y: int)
    ensures Wrap32(Wrap32(x + y) - y) == x
    ensures Wrap32(Wrap32(x - y) + y) == x
  {
    Wrap32AddLeft(x + y, -y);
    Wrap32AddLeft(x - y, y);
  }

  /** `(c - a) + (b - c) == b - a` under wrap-around. */
  lemma Wrap32Telescope(a: int, b: int, c: int)
    ensures Wrap32(Wrap32(c - a) + Wrap32(b - c)) == Wrap32(b - a)
  {
    Wrap32AddLeft(c - a, Wrap32(b - c));
    Wrap32AddRight(c - a, b - c);
  }

  /** `(b + v) - (a + v) == b - a` under wrap-around. */
  lemma Wrap32ShiftedDifference(a: int, b: int, v: int)
    ensures Wrap32(Wrap32(b + v) - Wrap32(a + v)) == Wrap32(b - a)
  {
    Wrap32AddLeft(b + v, -(Wrap32(a + v) as int));
    Wrap32SubRight(b + v, a + v);
  }

  lemma Wrap32SubRight(a: int, b: int)
    ensures Wrap32(a - Wrap32(b)) == Wrap32(a - b)
  {
    Wrap32Congruent(a - Wrap32(b), a - b);
  }

  lemma Wrap32Neg(a: int)
    ensures Wrap32(-(Wrap32(a) as int)) == Wrap32(-a)
  {
    Wrap32Congruent(-(Wrap32(a) as int), -a);
  }

  /** C# `int << n`: the count is masked to 5 bits and the result wraps. */
  function Shl32(x: int, n: int): (r: i32)
  {
    Wrap32(x * Pow2(n % 32))
  }

  /** C# `int >> n` on a signed operand: arithmetic shift, count masked to 5 bits. */
  function Shr32(x: i32, n: int): (r: i32)
    ensures x >= 0 ==> 0 <= r <= x
    ensures x < 0 ==> x <= r < 0
  {
    Pow2Monotone(n % 32, 31);
    Pow2Value31();
    FloorDivBounds(x, Pow2(n % 32));
    x / Pow2(n % 32)
  }

  /** C# `long >> n` on a signed operand: arithmetic shift, count masked to 6 bits. */
  function Shr64(x: i64, n: int): (r: i64)
    ensures x >= 0 ==> 0 <= r <= x
    ensures x < 0 ==> x <= r < 0
  {
    Pow2Monotone(n % 64, 63);
    Pow2Value63();
    FloorDivBounds(x, Pow2(n % 64));
    x / Pow2(n % 64)
  }

  /** Shifting an exact multiple of 2^k right by k gives the quotient. */
  /** For a count below 32 the shift is the floor quotient by 2^k. */
  lemma Shr32Floor(x: i32, k: nat)
    requires k < 32
    ensures Shr32(x, k) * Pow2(k) <= x < (Shr32(x, k) + 1) * Pow2(k)
  {
    assert k % 32 == k;
    FloorDivBounds(x, Pow2(k));
  }

  /** For a count below 64 the shift is the floor quotient by 2^k. */
  lemma Shr64Floor(x: i64, k: nat)
    requires k < 64
    ensures Shr64(x, k) * Pow2(k) <= x < (Shr64(x, k) + 1) * Pow2(k)
  {
    assert k % 64 == k;
    FloorDivBounds(x, Pow2(k));
  }

  lemma Shr32Exact(x: i32, k: nat, q: int)
    requires k < 32 && x == q * Pow2(k)
    ensures Shr32(x, k) == q
  {
    var r := Shr32(x, k);
    assert k % 32 == k;
    if r > q {
      MulLeft(r, q + 1, Pow2(k));
    } else if r < q {
      MulLeft(q, r + 1, Pow2(k));
    }
  }

  /** Dafny's `/` by a positive divisor is floor division. */
  lemma FloorDivBounds(x: int, d: int)
    requires d > 0
    ensures (x / d) * d <= x < (x / d + 1) * d
    ensures x >= 0 ==> 0 <= x / d <= x
    ensures x < 0 ==> x <= x / d < 0
  {
    var q, r := x / d, x % d;
    assert x == q * d + r && 0 <= r < d;
    if x >= 0 {
      if q < 0 {
        MulLeft(-q, 1, d);
        assert false;
      }
      MulLeft(d, 1, q);
    } else {
      if q >= 0 {
        MulLeft(q, 0, d);
        assert false;
      }
      if q + 1 <= x {
        MulLeft(x, q + 1, d);
        MulLeft(d, 1, -x);
        assert false;
      }
    }
  }

  lemma MulLeft(a: int, b: int, d: int)
    requires a >= b && d >= 0
    ensures a * d >= b * d
  {
  }

  lemma Pow2Value31()
    ensures Pow2(31) == TWO31
  {
    Pow2Add(16, 15);
    assert Pow2(16) == 65536 by { Pow2Add(8, 8); assert Pow2(8) == 256; }
    assert Pow2(15) == 32768 by { Pow2Add(8, 7); assert Pow2(8) == 256; assert Pow2(7) == 128; }
  }

  lemma Pow2Value10()
    ensures Pow2(10) == 1024
  {
    assert Pow2(5) == 32;
    Pow2Add(5, 5);
  }

  lemma Pow2Value22()
    ensures Pow2(10) == 1024 && Pow2(21) == 0x20_0000 && Pow2(22) == 0x40_0000
  {
    Pow2Add(11, 11);
    assert Pow2(11) == 2048 by { Pow2Add(8, 3); assert Pow2(8) == 256; }
    assert Pow2(10) == 1024 by { Pow2Add(8, 2); assert Pow2(8) == 256; }
  }

  lemma Pow2Value32()
    ensures Pow2(32) == TWO32
  {
    Pow2Value31();
    assert Pow2(32) == 2 * Pow2(31);
  }

  lemma Pow2Value63()
    ensures Pow2(63) == TWO63
  {
    Pow2Add(32, 31);
    Pow2Value31();
    assert Pow2(32) == 2 * Pow2(31);
  }

  function Abs(x: int): (r: int)
    ensures r >= 0 && (r == x || r == -x)
  {
    if x < 0 then -x else x
  }

  /** C# `/` on integers: the quotient truncated toward zero. */
  function TruncDiv(a: int, b: int): (q: int)
    requires b != 0
    ensures a >= 0 ==> 0 <= a - q * b < Abs(b)
    ensures a < 0 ==> -Abs(b) < a - q * b <= 0
  {
    var m := Abs(a) / Abs(b);
    var q := if (a >= 0) == (b > 0) then m else -m;
    TruncDivBounds(a, b, m, q);
    q
  }

  lemma TruncDivBounds(a: int, b: int, m: int, q: int)
    requires b != 0 && m == Abs(a) / Abs(b)
    requires q == if (a >= 0) == (b > 0) then m else -m
    ensures a >= 0 ==> 0 <= a - q * b < Abs(b)
    ensures a < 0 ==> -Abs(b) < a - q * b <= 0
  {
    var n: int, d: int := Abs(a), Abs(b);
    assert 0 <= n - m * d < d;
    if a >= 0 {
      assert q * b == m * d by {
        if b > 0 { assert q == m; } else { assert q == -m && b == -d; assert (-m) * (-d) == m * d; }
      }
    } else {
      assert q * b == -(m * d) by {
        if b > 0 { assert q == -m && b == d; } else { assert q == m && b == -d; }
      }
    }
  }

  /**
   * Shifting a positive dividend, or a non-positive one first raised by
   * `d - 1`, right by log2(d) bits truncates toward zero.
   */
  lemma ShiftTruncates(x: int, d: int, q: int)
    requires d > 1
    requires x > 0 ==> q * d <= x < (q + 1) * d
    requires x <= 0 ==> q * d <= x + d - 1 < (q + 1) * d
    ensures q == TruncDiv(x, d)
  {
    var t := TruncDiv(x, d);
    assert x > 0 ==> 0 <= x - q * d < d;
    assert x <= 0 ==> -d < x - q * d <= 0;
    QuotientUnique(t, q, d, x);
  }

  /** Two quotients whose remainders lie in the same half-open window of width `d` agree. */
  lemma QuotientUnique(t: int, q: int, d: int, x: int)
    requires d > 0
    requires (0 <= x - t * d < d && 0 <= x - q * d < d) || (-d < x - t * d <= 0 && -d < x - q * d <= 0)
    ensures t == q
  {
    if t > q {
      assert (t - q) * d == t * d - q * d;
      MulLeft(t - q, 1, d);
    } else if t < q {
      assert (q - t) * d == q * d - t * d;
      MulLeft(q - t, 1, d);
    }
  }

  /** Truncation toward zero is odd: negating the dividend negates the quotient. */
  lemma TruncDivNeg(a: int, b: int)
    requires b != 0
    ensures TruncDiv(-a, b) == -TruncDiv(a, b)
  {
    var n: int, d: int := Abs(a), Abs(b);
    var m := n / d;
    assert Abs(-a) == n;
    var p := TruncDiv(a, b);
    var q := TruncDiv(-a, b);
    assert p == (if (a >= 0) == (b > 0) then m else -m);
    assert q == (if (-a >= 0) == (b > 0) then m else -m);
    if a == 0 {
      assert m == 0;
    }
  }

  /** A multiple of a positive divisor divides exactly. */
  lemma TruncDivExact(c: int, d: int)
    requires d > 0
    ensures TruncDiv(c * d, d) == c
  {
    var q := TruncDiv(c * d, d);
    var e := c - q;
    assert c * d - q * d == e * d;
  }

  /** C# `%` on integers: the remainder takes the sign of the dividend. */
  function TruncRem(a: int, b: int): (r: int)
    requires b != 0
    ensures a == TruncDiv(a, b) * b + r
    ensures Abs(r) < Abs(b)
    ensures r == 0 || (r > 0) == (a > 0)
  {
    a - TruncDiv(a, b) * b
  }
}
