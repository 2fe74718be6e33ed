/**
 * Bit arithmetic on non-negative integers, in the form the hypercube needs:
 * exclusive or, population count, count of trailing zeros and the two
 * integer logarithms that stand for `ceil(log2 n)` and `(int) log2 n`.
 */
module Bits {

  /** 2 to the power k, i.e. `1 << k`. */
  function Pow2(k: nat): (r: nat)
    ensures r >= 1
  {
    if k == 0 then 1 else 2 * Pow2(k - 1)
  }

  /** Bitwise exclusive or, one bit per recursion step. */
  function Xor(a: nat, b: nat): nat
    decreases a + b
  {
    if a == 0 && b == 0 then 0 else 2 * Xor(a / 2, b / 2) + (if a % 2 == b % 2 then 0 else 1)
  }

  /** The number of one bits of x. */
  function Popcount(x: nat): nat {
    if x == 0 then 0 else x % 2 + Popcount(x / 2)
  }

  /** The number of one bits in which a and b differ. */
  function Hamming(a: nat, b: nat): nat {
    Popcount(Xor(a, b))
  }

  /** The position of the lowest one bit of x (`__builtin_ctz`). */
  function Ctz(x: nat): nat
    requires x > 0
  {
    if x % 2 == 1 then 0 else 1 + Ctz(x / 2)
  }

  /** The least k with n <= 2^k: the value of `ceil(log2(n))` for n >= 1. */
  function CeilLog2(n: nat): (r: nat)
    requires n >= 1
    ensures n <= Pow2(r)
    ensures r > 0 ==> Pow2(r - 1) < n
    decreases n
  {
    if n <= 1 then 0 else 1 + CeilLog2((n + 1) / 2)
  }

  /** The k with 2^k <= n < 2^(k+1): the value of `(int) log2(n)` for n >= 1. */
  function FloorLog2(n: nat): (r: nat)
    requires n >= 1
    ensures Pow2(r) <= n < Pow2(r + 1)
  {
    if n == 1 then 0 else 1 + FloorLog2(n / 2)
  }

  /** Lowest bit and the remaining bits of an exclusive or. */
  lemma XorSplit(a: nat, b: nat)
    ensures Xor(a, b) % 2 == (if a % 2 == b % 2 then 0 else 1)
    ensures Xor(a, b) / 2 == Xor(a / 2, b / 2)
  {
  }

  /** A number is fixed by its lowest bit and its remaining bits. */
  lemma SplitEqual(x: nat, y: nat)
    requires x % 2 == y % 2 && x / 2 == y / 2
    ensures x == y
  {
  }

  lemma {:induction false} XorComm(a: nat, b: nat)
    ensures Xor(a, b) == Xor(b, a)
    decreases a + b
  {
    if a + b > 0 {
      XorComm(a / 2, b / 2);
    }
  }

  lemma {:induction false} XorAssoc(a: nat, b: nat, c: nat)
    ensures Xor(Xor(a, b), c) == Xor(a, Xor(b, c))
    decreases a + b + c
  {
    if a + b + c > 0 {
      XorAssoc(a / 2, b / 2, c / 2);
      XorSplit(a, b);
      XorSplit(b, c);
      XorSplit(Xor(a, b), c);
      XorSplit(a, Xor(b, c));
      SplitEqual(Xor(Xor(a, b), c), Xor(a, Xor(b, c)));
    }
  }

  /** Exclusive or is zero exactly on equal arguments. */
  lemma {:induction false} XorZeroIff(a: nat, b: nat)
    ensures Xor(a, b) == 0 <==> a == b
    decreases a + b
  {
    if a + b > 0 {
      XorZeroIff(a / 2, b / 2);
      if a != b {
        assert a % 2 != b % 2 || a / 2 != b / 2;
      }
    }
  }

  lemma {:induction false} XorWithZero(a: nat)
    ensures Xor(a, 0) == a
  {
    if a > 0 {
      XorWithZero(a / 2);
    }
  }

  /** Flipping the same bits twice gives the original value back. */
  lemma XorCancel(a: nat, b: nat)
    ensures Xor(Xor(a, b), b) == a
    ensures Xor(b, Xor(b, a)) == a
  {
    XorAssoc(a, b, b);
    XorZeroIff(b, b);
    XorWithZero(a);
    XorAssoc(b, b, a);
    XorComm(0, a);
  }

  /** Below 2^k: exclusive or keeps both arguments' bound. */
  lemma {:induction false} XorBelow(a: nat, b: nat, k: nat)
    requires a < Pow2(k) && b < Pow2(k)
    ensures Xor(a, b) < Pow2(k)
  {
    if k == 0 {
      assert a == 0 && b == 0;
    } else {
      XorBelow(a / 2, b / 2, k - 1);
    }
  }

  lemma {:induction false} Pow2Monotone(j: nat, k: nat)
    requires j <= k
    ensures Pow2(j) <= Pow2(k)
  {
    if j < k {
      Pow2Monotone(j, k - 1);
    }
  }

  /** A one bit alone has popcount one. */
  lemma {:induction false} PopcountPow2(k: nat)
    ensures Popcount(Pow2(k)) == 1
  {
    if k > 0 {
      PopcountPow2(k - 1);
      assert Pow2(k) / 2 == Pow2(k - 1);
    }
  }

  /** Doubling shifts every bit up by one: exclusive or, popcount and trailing zeros follow. */
  lemma Double(u: nat, v: nat)
    ensures Xor(2 * u, 2 * v) == 2 * Xor(u, v)
    ensures Popcount(2 * u) == Popcount(u) && Popcount(2 * u + 1) == Popcount(u) + 1
    ensures u > 0 ==> Ctz(2 * u) == Ctz(u) + 1
  {
    assert (2 * u) / 2 == u && (2 * u) % 2 == 0 && (2 * v) / 2 == v && (2 * v) % 2 == 0;
    assert (2 * u + 1) / 2 == u && (2 * u + 1) % 2 == 1;
  }

  /** Flipping the lowest bit of an odd number clears it. */
  lemma XorOddOne(u: nat)
    ensures Xor(2 * u + 1, 1) == 2 * u
  {
    assert (2 * u + 1) / 2 == u && (2 * u + 1) % 2 == 1;
    XorWithZero(u);
  }

  /**
   * Flipping the lowest one bit of x clears it: the result is x - 2^ctz(x),
   * has one bit fewer, and its own lowest one bit (if any) is higher.
   */
  lemma {:induction false} ClearLowest(x: nat)
    requires x > 0
    ensures Pow2(Ctz(x)) <= x
    ensures Xor(x, Pow2(Ctz(x))) == x - Pow2(Ctz(x))
    ensures Popcount(Xor(x, Pow2(Ctz(x)))) == Popcount(x) - 1
    ensures Xor(x, Pow2(Ctz(x))) > 0 ==> Ctz(Xor(x, Pow2(Ctz(x)))) > Ctz(x)
  {
    var u := x / 2;
    if x % 2 == 1 {
      assert x == 2 * u + 1 && Ctz(x) == 0;
      XorOddOne(u);
      Double(u, 0);
    } else {
      assert x == 2 * u && u > 0;
      var c := Ctz(u);
      assert Ctz(x) == c + 1;
      ClearLowest(u);
      var y := Xor(u, Pow2(c));
      Double(u, Pow2(c));
      Double(y, 0);
    }
  }

  /** A value with a single one bit is the power of two at that bit. */
  lemma PopcountOne(x: nat)
    requires Popcount(x) == 1
    ensures x > 0 && x == Pow2(Ctz(x))
  {
    ClearLowest(x);
    PopcountZero(x - Pow2(Ctz(x)));
  }

  lemma {:induction false} PopcountZero(x: nat)
    requires Popcount(x) == 0
    ensures x == 0
  {
    if x > 0 {
      PopcountZero(x / 2);
    }
  }

  /** Two values that differ in exactly bit k are one bit apart. */
  lemma FlipIsOneBit(a: nat, k: nat)
    ensures Hamming(a, Xor(a, Pow2(k))) == 1
    ensures Xor(a, Pow2(k)) != a
  {
    XorCancel(Pow2(k), a);
    XorComm(Xor(a, Pow2(k)), a);
    XorComm(a, Pow2(k));
    PopcountPow2(k);
    XorZeroIff(a, Xor(a, Pow2(k)));
  }

  /** Above the top bit of a, setting bit k adds 2^k. */
  lemma {:induction false} XorHighBit(a: nat, k: nat)
    requires a < Pow2(k)
    ensures Xor(a, Pow2(k)) == a + Pow2(k)
  {
    if k == 0 {
      assert a == 0;
      XorComm(0, 1);
      XorWithZero(1);
    } else {
      var u := a / 2;
      var p := Pow2(k - 1);
      assert u < p;
      XorHighBit(u, k - 1);
      if a % 2 == 0 {
        assert a == 2 * u;
        Double(u, p);
      } else {
        assert a == 2 * u + 1;
        assert (2 * p) / 2 == p && (2 * p) % 2 == 0;
      }
    }
  }

  lemma {:induction false} CtzPow2(k: nat)
    ensures Ctz(Pow2(k)) == k
  {
    if k > 0 {
      CtzPow2(k - 1);
      assert Pow2(k) / 2 == Pow2(k - 1);
    }
  }

  /** Pow2 is strictly increasing, so it takes each value at most once. */
  lemma {:induction false} Pow2Less(j: nat, k: nat)
    requires Pow2(j) < Pow2(k)
    ensures j < k
  {
    if j >= k {
      Pow2Monotone(k, j);
    }
  }

  lemma {:induction false} CeilLog2Pow2(k: nat)
    ensures CeilLog2(Pow2(k)) == k
  {
    var r := CeilLog2(Pow2(k));
    if r < k {
      Pow2Monotone(r + 1, k);
    } else if r > k {
      Pow2Monotone(k, r - 1);
    }
  }

  lemma {:induction false} FloorLog2Pow2(k: nat)
    ensures FloorLog2(Pow2(k)) == k
  {
    var r := FloorLog2(Pow2(k));
    if r < k {
      Pow2Monotone(r + 1, k);
    } else if r > k {
      Pow2Monotone(k + 1, r);
    }
  }
}
