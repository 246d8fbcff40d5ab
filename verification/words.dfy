/** Unsigned machine words as bounded naturals, with the bitwise operations
    the framer uses defined bit by bit (least significant bit first), so that
    facts about them follow by induction. */
module Words {

  function Pow2(n: nat): (r: nat)
    ensures r >= 1
  {
    if n == 0 then 1 else 2 * Pow2(n - 1)
  }

  /** 2^64: one more than the largest uint64_t value. */
  const Pow64: nat := 0x1_0000_0000_0000_0000

  lemma Pow64IsPow2()
    ensures Pow2(64) == Pow64
  {
    Pow2Of32();
    Pow2Add(32, 32);
  }

  lemma Pow2Of32()
    ensures Pow2(32) == 0x1_0000_0000
  {
    Pow2Of16();
    Pow2Add(16, 16);
  }

  lemma Pow2Of16()
    ensures Pow2(16) == 0x1_0000
  {
    assert Pow2(8) == 256;
    Pow2Add(8, 8);
  }

  lemma {:induction false} Pow2Add(a: nat, b: nat)
    ensures Pow2(a + b) == Pow2(a) * Pow2(b)
    decreases a
  {
    if a > 0 {
      Pow2Add(a - 1, b);
    }
  }

  predicate IsU64(x: nat) { x < Pow64 }

  /** An octet as a number: bytes that are only moved, compared and
      added up are kept out of bit-vector arithmetic. */
  type Byte = x: int | 0 <= x < 0x100

  /** Bitwise exclusive or. */
  function Xor(a: nat, b: nat): nat
    decreases a + b
  {
    if a == 0 && b == 0 then 0
    else 2 * Xor(a / 2, b / 2) + (if a % 2 == b % 2 then 0 else 1)
  }

  /** Bitwise and. */
  function And(a: nat, b: nat): nat
    decreases a + b
  {
    if a == 0 || b == 0 then 0
    else 2 * And(a / 2, b / 2) + (if a % 2 == 1 && b % 2 == 1 then 1 else 0)
  }

  /** Number of set bits. */
  function Popcount(v: nat): nat
  {
    if v == 0 then 0 else v % 2 + Popcount(v / 2)
  }

  lemma Pow2Split(n: nat)
    requires n >= 1
    ensures Pow2(n) == 2 * Pow2(n - 1)
  {
  }

  lemma {:induction false} XorBound(a: nat, b: nat, n: nat)
    requires a < Pow2(n) && b < Pow2(n)
    ensures Xor(a, b) < Pow2(n)
    decreases n
  {
    if a == 0 && b == 0 {
    } else {
      assert n >= 1;
      XorBound(a / 2, b / 2, n - 1);
    }
  }

  lemma {:induction false} XorZeroIffEqual(a: nat, b: nat)
    ensures Xor(a, b) == 0 <==> a == b
    decreases a + b
  {
    if a == 0 && b == 0 {
    } else {
      XorZeroIffEqual(a / 2, b / 2);
    }
  }

  /** Xoring the same word twice restores the original. */
  lemma {:induction false} XorSelfInverse(a: nat, k: nat)
    ensures Xor(Xor(a, k), k) == a
    decreases a + k
  {
    var x := Xor(a, k);
    if a == 0 && k == 0 {
    } else if x == 0 && k == 0 {
      XorZeroIffEqual(a, k);
    } else {
      XorSelfInverse(a / 2, k / 2);
      assert x / 2 == Xor(a / 2, k / 2) && x % 2 == (if a % 2 == k % 2 then 0 else 1);
    }
  }

  lemma XorCancel(a: nat, b: nat, k: nat)
    requires Xor(a, k) == Xor(b, k)
    ensures a == b
  {
    XorSelfInverse(a, k);
    XorSelfInverse(b, k);
  }

  lemma {:induction false} XorSymmetric(a: nat, b: nat)
    ensures Xor(a, b) == Xor(b, a)
    decreases a + b
  {
    if a == 0 && b == 0 {
    } else {
      XorSymmetric(a / 2, b / 2);
    }
  }

  lemma {:induction false} PopcountBound(v: nat, n: nat)
    requires v < Pow2(n)
    ensures Popcount(v) <= n
    decreases n
  {
    if v != 0 {
      PopcountBound(v / 2, n - 1);
    }
  }

  lemma PopcountZeroIffZero(v: nat)
    ensures Popcount(v) == 0 <==> v == 0
  {
  }

  lemma {:induction false} AndSelf(a: nat)
    ensures And(a, a) == a
    decreases a
  {
    if a != 0 {
      AndSelf(a / 2);
    }
  }

  /** `v & (v - 1)` clears exactly the lowest set bit of a non-zero v. */
  lemma {:induction false} ClearLowestBit(v: nat)
    requires v > 0
    ensures And(v, v - 1) < v
    ensures Popcount(And(v, v - 1)) == Popcount(v) - 1
    decreases v
  {
    if v % 2 == 1 {
      if v > 1 {
        assert (v - 1) / 2 == v / 2;
        AndSelf(v / 2);
        assert And(v, v - 1) == 2 * (v / 2);
      }
      assert And(v, v - 1) == v - 1;
      assert Popcount(v - 1) == Popcount((v - 1) / 2);
    } else {
      assert (v - 1) / 2 == v / 2 - 1;
      ClearLowestBit(v / 2);
      var w := And(v / 2, v / 2 - 1);
      assert And(v, v - 1) == 2 * w;
      if w > 0 {
        assert Popcount(2 * w) == Popcount(w);
      }
    }
  }

  /** Masking with 2^w - 1 keeps the low w bits. */
  lemma {:induction false} AndLowMask(x: nat, w: nat)
    ensures And(x, Pow2(w) - 1) == x % Pow2(w)
    decreases w
  {
    if w == 0 {
    } else if x == 0 {
    } else {
      AndLowMask(x / 2, w - 1);
      var p := Pow2(w - 1);
      assert (Pow2(w) - 1) / 2 == p - 1;
      assert (Pow2(w) - 1) % 2 == 1;
      ModHalf(x, p);
    }
  }

  /** Masking with the single bit 2^w keeps that bit only. */
  lemma {:induction false} AndSingleBit(x: nat, w: nat)
    ensures And(x, Pow2(w)) == (if (x / Pow2(w)) % 2 == 1 then Pow2(w) else 0)
    decreases w
  {
    if x == 0 {
    } else if w == 0 {
      assert And(x / 2, 0) == 0;
    } else {
      AndSingleBit(x / 2, w - 1);
      assert Pow2(w) / 2 == Pow2(w - 1) && Pow2(w) % 2 == 0;
      assert x / Pow2(w) == (x / 2) / Pow2(w - 1) by {
        DivDiv(x, 2, Pow2(w - 1));
      }
    }
  }

  /** Division with remainder is unique. */
  lemma DivModUnique(x: int, d: int, q: int, r: int)
    requires d > 0 && 0 <= r < d && x == d * q + r
    ensures x / d == q && x % d == r
  {
    var q0 := x / d;
    var r0 := x % d;
    assert d * (q - q0) == r0 - r;
    if q > q0 {
      MulAtLeast(d, q - q0);
    } else if q < q0 {
      MulAtLeast(d, q0 - q);
    }
  }

  lemma MulAtLeast(d: int, k: int)
    requires d > 0 && k >= 1
    ensures d * k >= d
  {
  }

  lemma ModHalf(x: nat, p: nat)
    requires p >= 1
    ensures x % (2 * p) == 2 * ((x / 2) % p) + x % 2
  {
    var q := x / 2;
    assert q == p * (q / p) + q % p;
    assert x == (2 * p) * (q / p) + (2 * (q % p) + x % 2);
    DivModUnique(x, 2 * p, q / p, 2 * (q % p) + x % 2);
  }

  lemma DivDiv(x: nat, a: nat, b: nat)
    requires a >= 1 && b >= 1
    ensures x / (a * b) == (x / a) / b
  {
    var q := x / a;
    var r := x % a;
    var q2 := q / b;
    var r2 := q % b;
    assert x == a * (b * q2 + r2) + r;
    assert x == (a * b) * q2 + (a * r2 + r);
    assert a * r2 <= a * (b - 1) by {
      MulMono(a, r2, b - 1);
    }
    DivModUnique(x, a * b, q2, a * r2 + r);
  }

  lemma MulMono(a: nat, x: nat, y: nat)
    requires x <= y
    ensures a * x <= a * y
  {
  }

  lemma {:induction false} AndBound(a: nat, b: nat, n: nat)
    requires a < Pow2(n)
    ensures And(a, b) < Pow2(n)
    decreases n
  {
    if a == 0 || b == 0 {
    } else {
      AndBound(a / 2, b / 2, n - 1);
    }
  }

  /** a * b, unfolded one step at a time so that proofs about offsets stay
      in linear arithmetic. */
  function Mul(a: nat, b: nat): nat
  {
    if b == 0 then 0 else Mul(a, b - 1) + a
  }

  lemma {:induction false} MulIsProduct(a: nat, b: nat)
    ensures Mul(a, b) == a * b
    decreases b
  {
    if b > 0 {
      MulIsProduct(a, b - 1);
    }
  }

  lemma {:induction false} MulMonotone(a: nat, x: nat, y: nat)
    requires x <= y
    ensures Mul(a, x) <= Mul(a, y)
    decreases y
  {
    if x < y {
      MulMonotone(a, x, y - 1);
    }
  }
}
