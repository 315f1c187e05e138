/** Powers of two, the only capacities the two hash tables use. */
module Powers {

  function Pow2(k: nat): (p: nat)
    ensures p >= 1
  {
    if k == 0 then 1 else 2 * Pow2(k - 1)
  }

  lemma {:induction false} Pow2Monotone(a: nat, b: nat)
    requires a <= b
    ensures Pow2(a) <= Pow2(b)
    ensures a < b ==> Pow2(a) < Pow2(b)
    decreases b
  {
    if a < b {
      Pow2Monotone(a, b - 1);
    }
  }

  lemma {:induction false} Pow2Add(a: nat, b: nat)
    ensures Pow2(a + b) == Pow2(a) * Pow2(b)
  {
    if a > 0 {
      Pow2Add(a - 1, b);
      assert Pow2(a + b) == 2 * Pow2((a - 1) + b);
      DoubleFactor(Pow2(a - 1), Pow2(b));
    }
  }

  lemma DoubleFactor(x: int, y: int)
    ensures 2 * (x * y) == (2 * x) * y
  {
  }

  /** The least k with n <= 2^k. */
  function CeilLog2(n: nat): nat {
    if n <= 1 then 0 else 1 + CeilLog2((n + 1) / 2)
  }

  lemma {:induction false} CeilLog2Least(n: nat, k: nat)
    ensures n <= Pow2(k) <==> CeilLog2(n) <= k
    decreases k
  {
    if k > 0 {
      CeilLog2Least((n + 1) / 2, k - 1);
    }
  }

  lemma Pow2At32()
    ensures Pow2(32) == 0x1_0000_0000
    ensures Pow2(31) == 0x8000_0000
  {
    assert Pow2(8) == 256;
    Pow2Add(8, 8);
    Pow2Add(16, 8);
    Pow2Add(16, 16);
  }

  ghost predicate IsPow2(n: nat) {
    exists k: nat :: n == Pow2(k)
  }

  /** An odd factor cannot contribute to divisibility by a power of two. */
  lemma {:induction false} OddFactorDrops(u: int, v: int, q: int, k: nat) returns (r: int)
    requires u % 2 == 1
    requires u * v == q * Pow2(k)
    ensures v == r * Pow2(k)
    decreases k
  {
    if k == 0 {
      r := v;
    } else {
      HalveProduct(u, v, q, Pow2(k - 1));
      r := OddFactorDrops(u, v / 2, q, k - 1);
      assert v == 2 * (r * Pow2(k - 1)) == r * Pow2(k);
    }
  }

  lemma HalveProduct(u: int, v: int, q: int, p: int)
    requires u % 2 == 1
    requires u * v == q * (2 * p)
    ensures v % 2 == 0 && u * (v / 2) == q * p
  {
    assert q * (2 * p) == 2 * (q * p);
    EvenProduct(u, v);
    assert u * v == 2 * (u * (v / 2));
  }

  lemma MultipleMod(q: int, m: int)
    requires m > 0
    ensures (q * m) % m == 0
  {
    var r := (q * m) % m;
    var d := (q * m) / m;
    assert q * m == d * m + r;
    assert (q - d) * m == r;
    assert q - d >= 1 ==> (q - d) * m >= m;
    assert q - d <= -1 ==> (q - d) * m <= -m;
  }

  lemma EvenProduct(u: int, v: int)
    requires u % 2 == 1
    requires (u * v) % 2 == 0
    ensures v % 2 == 0
  {
    var a, b := u / 2, v / 2;
    assert v % 2 == 1 ==> u * v == 2 * (2 * a * b + a + b) + 1;
  }

  /** `x >> k` for an unsigned x. */
  function ShiftRight(x: nat, k: nat): nat {
    if k == 0 then x else ShiftRight(x / 2, k - 1)
  }

  lemma {:induction false} ShiftRightBound(x: nat, k: nat, bits: nat)
    requires x < Pow2(k + bits)
    ensures ShiftRight(x, k) < Pow2(bits)
  {
    if k > 0 {
      assert k + bits - 1 == (k - 1) + bits;
      ShiftRightBound(x / 2, k - 1, bits);
    }
  }

  lemma {:induction false} ShiftRightTwice(x: nat, j: nat, k: nat)
    ensures ShiftRight(x, j + k) == ShiftRight(ShiftRight(x, j), k)
  {
    if j > 0 {
      assert j + k - 1 == (j - 1) + k;
      ShiftRightTwice(x / 2, j - 1, k);
    }
  }

  lemma {:induction false} ShiftRightMonotone(x: nat, y: nat, k: nat)
    ensures ShiftRight(x, k) < ShiftRight(y, k) ==> x < y
  {
    if k > 0 {
      ShiftRightMonotone(x / 2, y / 2, k - 1);
    }
  }

  /** `x & (2^k - 1)`. */
  function LowBits(x: nat, k: nat): (r: nat)
    ensures r < Pow2(k)
  {
    if k == 0 then 0 else x % 2 + 2 * LowBits(x / 2, k - 1)
  }

  lemma DoubledSplit(x: nat, high: nat, p: nat, low: nat)
    requires x / 2 == high * p + low
    ensures x == high * (2 * p) + (x % 2 + 2 * low)
  {
    assert high * (2 * p) == 2 * (high * p);
  }

  lemma {:induction false} HighAndLow(x: nat, k: nat)
    ensures x == ShiftRight(x, k) * Pow2(k) + LowBits(x, k)
  {
    if k > 0 {
      HighAndLow(x / 2, k - 1);
      var high, low, p := ShiftRight(x / 2, k - 1), LowBits(x / 2, k - 1), Pow2(k - 1);
      assert ShiftRight(x, k) == high && LowBits(x, k) == x % 2 + 2 * low && Pow2(k) == 2 * p;
      hide ShiftRight, LowBits, Pow2;
      DoubledSplit(x, high, p, low);
    }
  }

  /** Among numbers that agree above the low k bits, the low bits decide. */
  lemma {:induction false} LowBitsDecide(x: nat, y: nat, k: nat)
    requires ShiftRight(x, k) == ShiftRight(y, k)
    ensures x < y <==> LowBits(x, k) < LowBits(y, k)
    ensures x == y <==> LowBits(x, k) == LowBits(y, k)
  {
    if k > 0 {
      LowBitsDecide(x / 2, y / 2, k - 1);
    }
  }
}
