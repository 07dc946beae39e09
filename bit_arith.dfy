/**
 * Bit-level arithmetic on naturals: powers of two, the XOR of the low n bits,
 * single bits and the count of trailing zero bits.  Kademlia identifiers are
 * naturals below 2^16, so ordering stays linear arithmetic while the bit
 * operations the routing table needs are defined here by recursion on bits.
 */
module BitArith {

  function Pow2(n: nat): (r: nat)
    ensures r >= 1
  {
    if n == 0 then 1 else 2 * Pow2(n - 1)
  }

  lemma {:induction false} Pow2Add(m: nat, n: nat)
    ensures Pow2(m + n) == Pow2(m) * Pow2(n)
    decreases n
  {
    if n > 0 {
      Pow2Add(m, n - 1);
      assert Pow2(m + n) == 2 * Pow2(m + n - 1);
    }
  }

  lemma {:induction false} Pow2Monotone(m: nat, n: nat)
    requires m <= n
    ensures Pow2(m) <= Pow2(n)
    decreases n
  {
    if m < n {
      Pow2Monotone(m, n - 1);
    }
  }

  /** The XOR of the low n bits of a and b (bit k of the result is set iff bit k of a and b differ). */
  function Xor(a: nat, b: nat, n: nat): nat {
    if n == 0 then 0 else 2 * Xor(a / 2, b / 2, n - 1) + (if a % 2 == b % 2 then 0 else 1)
  }

  /** The XOR of n-bit parts is an n-bit number. */
  lemma {:induction false} XorBound(a: nat, b: nat, n: nat)
    ensures Xor(a, b, n) < Pow2(n)
    decreases n
  {
    if n > 0 {
      XorBound(a / 2, b / 2, n - 1);
    }
  }

  /** Bit k (counted from the least significant end) of x. */
  predicate BitAt(x: nat, k: nat) {
    (x / Pow2(k)) % 2 == 1
  }

  /** Number of trailing zero bits of a positive number: the position of its lowest set bit. */
  function TrailingZeros(x: nat): nat
    requires x > 0
  {
    if x % 2 == 1 then 0 else 1 + TrailingZeros(x / 2)
  }

  /** TrailingZeros(x) is the lowest set bit: that bit is set and every bit below it is clear. */
  lemma {:induction false} TrailingZerosBits(x: nat)
    requires x > 0
    ensures BitAt(x, TrailingZeros(x))
    ensures forall j :: 0 <= j < TrailingZeros(x) ==> !BitAt(x, j)
    decreases x
  {
    if x % 2 == 0 {
      TrailingZerosBits(x / 2);
      var k := TrailingZeros(x / 2);
      HalfBit(x, k);
      forall j | 0 <= j < k + 1
        ensures !BitAt(x, j)
      {
        if j > 0 {
          HalfBit(x, j - 1);
        }
      }
    }
  }

  lemma TrailingZerosDouble(y: nat)
    requires y > 0
    ensures TrailingZeros(2 * y) == 1 + TrailingZeros(y)
  {
    assert (2 * y) / 2 == y;
  }

  /** Bit k+1 of x is bit k of x / 2. */
  lemma HalfBit(x: nat, k: nat)
    ensures BitAt(x, k + 1) == BitAt(x / 2, k)
  {
    DivTwice(x, Pow2(k));
  }

  /** Dividing by 2 * p is dividing by 2 and then by p. */
  lemma DivTwice(x: nat, p: nat)
    requires p > 0
    ensures x / (2 * p) == (x / 2) / p
  {
    var q := (x / 2) / p;
    var r := (x / 2) % p;
    var s := x % 2;
    assert x == 2 * (x / 2) + s;
    assert x / 2 == p * q + r;
    assert x == (2 * p) * q + (2 * r + s);
    DivUnique(x, 2 * p, q, 2 * r + s);
  }

  /** Euclidean division is determined by any quotient/remainder split. */
  lemma DivUnique(x: int, d: int, q: int, r: int)
    requires d > 0 && 0 <= r < d && x == d * q + r
    ensures x / d == q && x % d == r
  {
    var q' := x / d;
    var r' := x % d;
    assert x == d * q' + r';
    if q' > q {
      assert d * (q + 1) == d * q + d;
      MulMono(d, q + 1, q');
    } else if q' < q {
      MulMono(d, q' + 1, q);
    }
  }

  lemma MulMono(d: int, a: int, b: int)
    requires d > 0 && a <= b
    ensures d * a <= d * b
  {
    assert d * b - d * a == d * (b - a);
  }

  lemma {:induction false} XorComm(a: nat, b: nat, n: nat)
    ensures Xor(a, b, n) == Xor(b, a, n)
    decreases n
  {
    if n > 0 {
      XorComm(a / 2, b / 2, n - 1);
    }
  }

  lemma {:induction false} XorSelf(a: nat, n: nat)
    ensures Xor(a, a, n) == 0
    decreases n
  {
    if n > 0 {
      XorSelf(a / 2, n - 1);
    }
  }

  /** On n-bit values XOR is zero exactly for equal arguments. */
  lemma {:induction false} XorZeroIff(a: nat, b: nat, n: nat)
    requires a < Pow2(n) && b < Pow2(n)
    ensures Xor(a, b, n) == 0 <==> a == b
    decreases n
  {
    if n > 0 {
      XorZeroIff(a / 2, b / 2, n - 1);
      if Xor(a, b, n) == 0 {
        assert a == 2 * (a / 2) + a % 2 && b == 2 * (b / 2) + b % 2;
      } else if a == b {
        XorSelf(a, n);
      }
    }
  }

  /** XOR with the n-bit all-ones value is the bitwise complement. */
  lemma {:induction false} XorAllOnes(a: nat, n: nat)
    requires a < Pow2(n)
    ensures Xor(a, Pow2(n) - 1, n) == Pow2(n) - 1 - a
    decreases n
  {
    if n > 0 {
      var m := Pow2(n - 1);
      assert (Pow2(n) - 1) / 2 == m - 1 && (Pow2(n) - 1) % 2 == 1;
      XorAllOnes(a / 2, n - 1);
    }
  }

  /** Applying the same XOR mask twice gives back the n-bit value. */
  lemma {:induction false} XorInvolution(a: nat, b: nat, n: nat)
    requires a < Pow2(n)
    ensures Xor(Xor(a, b, n), b, n) == a
    decreases n
  {
    if n > 0 {
      var x := Xor(a, b, n);
      var bit := if a % 2 == b % 2 then 0 else 1;
      assert x == 2 * Xor(a / 2, b / 2, n - 1) + bit;
      assert x / 2 == Xor(a / 2, b / 2, n - 1) && x % 2 == bit;
      XorInvolution(a / 2, b / 2, n - 1);
    }
  }

  /** XOR with a fixed pivot is injective on n-bit values. */
  lemma XorInjective(a: nat, b: nat, p: nat, n: nat)
    requires a < Pow2(n) && b < Pow2(n)
    requires Xor(a, p, n) == Xor(b, p, n)
    ensures a == b
  {
    XorInvolution(a, p, n);
    XorInvolution(b, p, n);
  }

  /**
   * The last ids of two neighbouring aligned blocks of size 2^m, K + 2^m - 1 and
   * K - 1 where K = k*2^m, first differ (from the least significant end) at bit m.
   */
  lemma {:induction false} XorNeighbourBlocks(k: nat, K: nat, m: nat, n: nat)
    requires k >= 1 && m < n && K == k * Pow2(m) && K + Pow2(m) <= Pow2(n)
    ensures Xor(K + Pow2(m) - 1, K - 1, n) > 0
    ensures TrailingZeros(Xor(K + Pow2(m) - 1, K - 1, n)) == m
    decreases m
  {
    var P := Pow2(m);
    if m == 0 {
      assert P == 1 && K == k;
      OddXorEven(K, n);
    } else {
      var p := Pow2(m - 1);
      var kp := k * p;
      assert P == 2 * p;
      assert K == 2 * kp by {
        MulTwice(k, p, P);
      }
      assert kp >= p by {
        MulMono(p, 1, k);
      }
      assert Pow2(n) == 2 * Pow2(n - 1);
      XorNeighbourBlocks(k, kp, m - 1, n - 1);
      NeighbourStep(K + P - 1, K - 1, kp, p, n);
    }
  }

  /** The same, with the two block ends named: hi ends the upper block, lo the lower. */
  lemma NeighbourBlockEnds(k: nat, m: nat, n: nat, hi: nat, lo: nat)
    requires k >= 1 && m < n && lo + 1 == k * Pow2(m) && hi == lo + Pow2(m) && hi < Pow2(n)
    ensures Xor(hi, lo, n) > 0 && TrailingZeros(Xor(hi, lo, n)) == m
  {
    var K := lo + 1;
    XorNeighbourBlocks(k, K, m, n);
    assert K + Pow2(m) - 1 == hi && K - 1 == lo;
  }

  /** Doubling two neighbouring block ends adds one trailing zero to their XOR. */
  lemma NeighbourStep(a: nat, b: nat, kp: nat, p: nat, n: nat)
    requires p >= 1 && kp >= p && n >= 1
    requires a == 2 * kp + 2 * p - 1 && b == 2 * kp - 1
    requires Xor(kp + p - 1, kp - 1, n - 1) > 0
    ensures Xor(a, b, n) > 0
    ensures TrailingZeros(Xor(a, b, n)) == 1 + TrailingZeros(Xor(kp + p - 1, kp - 1, n - 1))
  {
    XorOfOdds(a, b, kp + p - 1, kp - 1, n);
  }

  /** Two consecutive numbers differ in their lowest bit. */
  lemma OddXorEven(k: nat, n: nat)
    requires k >= 1 && n >= 1
    ensures Xor(k, k - 1, n) > 0 && TrailingZeros(Xor(k, k - 1, n)) == 0
  {
    ConsecutiveParity(k);
    XorUnfold(k, k - 1, n);
    var x := Xor(k, k - 1, n);
    var h := Xor(k / 2, (k - 1) / 2, n - 1);
    assert x == 2 * h + 1;
    assert x % 2 == 1;
  }

  lemma ConsecutiveParity(k: nat)
    requires k >= 1
    ensures k % 2 != (k - 1) % 2
  {
  }

  /** Two odd numbers agree in their lowest bit, so their XOR is twice that of their halves. */
  lemma XorOfOdds(a: nat, b: nat, c: nat, d: nat, n: nat)
    requires a == 2 * c + 1 && b == 2 * d + 1 && n >= 1
    requires Xor(c, d, n - 1) > 0
    ensures Xor(a, b, n) > 0 && TrailingZeros(Xor(a, b, n)) == 1 + TrailingZeros(Xor(c, d, n - 1))
  {
    HalfOfOdd(a, c);
    HalfOfOdd(b, d);
    assert Xor(a, b, n) == 2 * Xor(c, d, n - 1);
    TrailingZerosDouble(Xor(c, d, n - 1));
  }

  lemma HalfOfOdd(a: nat, c: nat)
    requires a == 2 * c + 1
    ensures a / 2 == c && a % 2 == 1
  {
  }

  /** 2^n - 2^m has exactly m trailing zero bits when m < n. */
  lemma TrailingZerosOfHighOnes(m: nat, n: nat)
    requires m < n
    ensures Pow2(n) - Pow2(m) > 0
    ensures TrailingZeros(Pow2(n) - Pow2(m)) == m
  {
    Pow2Monotone(m, n - 1);
    assert Pow2(n) == 2 * Pow2(n - 1);
    HighOnesAt(Pow2(n) - Pow2(m), m, n);
  }

  /** TrailingZerosOfHighOnes with x = 2^n - 2^m named. */
  lemma {:induction false} HighOnesAt(x: nat, m: nat, n: nat)
    requires m < n && x == Pow2(n) - Pow2(m)
    ensures x > 0 && TrailingZeros(x) == m
    decreases m
  {
    if m == 0 {
      HighOnesOdd(x, n);
      OddTrailingZeros(x);
    } else {
      var y := Pow2(n - 1) - Pow2(m - 1);
      HighOnesAt(y, m - 1, n - 1);
      HighOnesHalf(x, y, m, n);
      DoubleTrailingZeros(x, y);
    }
  }

  /** 2^n - 1 is odd for n > 0. */
  lemma HighOnesOdd(x: nat, n: nat)
    requires 0 < n && x == Pow2(n) - Pow2(0)
    ensures x % 2 == 1
  {
    assert Pow2(n) == 2 * Pow2(n - 1);
  }

  /** 2^n - 2^m is twice 2^(n-1) - 2^(m-1). */
  lemma HighOnesHalf(x: nat, y: nat, m: nat, n: nat)
    requires 0 < m < n && x == Pow2(n) - Pow2(m) && y == Pow2(n - 1) - Pow2(m - 1)
    ensures x == 2 * y
  {
    assert Pow2(n) == 2 * Pow2(n - 1);
    assert Pow2(m) == 2 * Pow2(m - 1);
  }

  /** An odd number has no trailing zero bits. */
  lemma OddTrailingZeros(x: nat)
    requires x % 2 == 1
    ensures x > 0 && TrailingZeros(x) == 0
  {
  }

  /** Twice a positive number has one more trailing zero bit. */
  lemma DoubleTrailingZeros(x: nat, y: nat)
    requires y > 0 && x == 2 * y
    ensures x > 0 && TrailingZeros(x) == 1 + TrailingZeros(y)
  {
    TrailingZerosDouble(y);
  }

  /** The last id (k+1)*2^(j+1) - 1 of an aligned block of size 2^(j+1) has bit j set. */
  lemma BlockTopBit(k: nat, j: nat)
    ensures (k + 1) * Pow2(j + 1) - 1 >= Pow2(j)
    ensures BitAt((k + 1) * Pow2(j + 1) - 1, j)
  {
    var p := Pow2(j);
    var x := (k + 1) * Pow2(j + 1) - 1;
    assert Pow2(j + 1) == 2 * p;
    assert x == p * (2 * k + 1) + (p - 1);
    DivUnique(x, p, 2 * k + 1, p - 1);
  }

  /** Bit k of the XOR is set exactly when bit k of the operands differ. */
  lemma {:induction false} XorBit(a: nat, b: nat, n: nat, k: nat)
    requires k < n
    ensures BitAt(Xor(a, b, n), k) == (BitAt(a, k) != BitAt(b, k))
    decreases k
  {
    var x := Xor(a, b, n);
    var bit := if a % 2 == b % 2 then 0 else 1;
    assert x == 2 * Xor(a / 2, b / 2, n - 1) + bit;
    assert x / 2 == Xor(a / 2, b / 2, n - 1) && x % 2 == bit;
    if k > 0 {
      XorBit(a / 2, b / 2, n - 1, k - 1);
      HalfBit(x, k - 1);
      HalfBit(a, k - 1);
      HalfBit(b, k - 1);
    }
  }

  /** A number below 2^k has no set bit at position k or above. */
  lemma SmallHasNoHighBit(x: nat, k: nat)
    requires x < Pow2(k)
    ensures !BitAt(x, k)
  {
    DivUnique(x, Pow2(k), 0, x);
  }

  /** The lowest set bit of a number below 2^n is below n. */
  lemma TrailingZerosBound(x: nat, n: nat)
    requires 0 < x < Pow2(n)
    ensures TrailingZeros(x) < n
  {
    TrailingZerosBits(x);
    var k := TrailingZeros(x);
    if k >= n {
      Pow2Monotone(n, k);
      SmallHasNoHighBit(x, k);
    }
  }

  /** Subtracting 2^k from a number whose bit k is set clears that bit and no other. */
  lemma {:induction false} ClearBitBits(x: nat, k: nat, j: nat)
    requires BitAt(x, k)
    ensures x >= Pow2(k)
    ensures BitAt(x - Pow2(k), j) == (j != k && BitAt(x, j))
    decreases k
  {
    if x < Pow2(k) {
      SmallHasNoHighBit(x, k);
    }
    var y := x - Pow2(k);
    if j == 0 {
      BitZero(x);
      BitZero(y);
      if k == 0 {
        ClearLowBit(x);
      } else {
        ClearHighBit(x, k);
      }
    } else {
      HalfBit(y, j - 1);
      HalfBit(x, j - 1);
      if k == 0 {
        BitZero(x);
        ClearLowBit(x);
      } else {
        HalfBit(x, k - 1);
        ClearHighBit(x, k);
        ClearBitBits(x / 2, k - 1, j - 1);
      }
    }
  }

  /** Bit 0 is the parity. */
  lemma BitZero(x: nat)
    ensures BitAt(x, 0) == (x % 2 == 1)
  {
    assert Pow2(0) == 1;
  }

  /** Clearing the lowest bit of an odd number keeps its half. */
  lemma ClearLowBit(x: nat)
    requires x % 2 == 1
    ensures x >= 1 && (x - 1) / 2 == x / 2 && (x - 1) % 2 == 0
  {
  }

  /** Subtracting 2^k, k > 0, keeps the parity and takes 2^(k-1) from the half. */
  lemma ClearHighBit(x: nat, k: nat)
    requires k > 0 && x >= Pow2(k)
    ensures x / 2 >= Pow2(k - 1)
    ensures (x - Pow2(k)) / 2 == x / 2 - Pow2(k - 1) && (x - Pow2(k)) % 2 == x % 2
  {
    assert Pow2(k) == 2 * Pow2(k - 1);
  }

  /** XOR distributes over a split of the operands into high and low parts of m bits. */
  lemma XorConcat(h1: nat, l1: nat, h2: nat, l2: nat, n: nat, m: nat)
    requires l1 < Pow2(m) && l2 < Pow2(m)
    ensures Xor(h1 * Pow2(m) + l1, h2 * Pow2(m) + l2, n + m) == Xor(h1, h2, n) * Pow2(m) + Xor(l1, l2, m)
  {
    MulNat(h1, Pow2(m));
    MulNat(h2, Pow2(m));
    MulNat(Xor(h1, h2, n), Pow2(m));
    XorConcatAt(h1 * Pow2(m) + l1, h2 * Pow2(m) + l2, Xor(h1, h2, n) * Pow2(m), h1, l1, h2, l2, n, m);
  }

  /** XorConcat with the operands a, b and the shifted high XOR hi named. */
  lemma {:induction false} XorConcatAt(a: nat, b: nat, hi: nat, h1: nat, l1: nat, h2: nat, l2: nat, n: nat, m: nat)
    requires l1 < Pow2(m) && l2 < Pow2(m)
    requires a == h1 * Pow2(m) + l1 && b == h2 * Pow2(m) + l2 && hi == Xor(h1, h2, n) * Pow2(m)
    ensures Xor(a, b, n + m) == hi + Xor(l1, l2, m)
    decreases m
  {
    if m == 0 {
      assert Pow2(m) == 1;
      assert a == h1 && b == h2 && hi == Xor(h1, h2, n) && Xor(l1, l2, m) == 0;
    } else {
      var p := Pow2(m - 1);
      assert Pow2(m) == 2 * p;
      var xh := Xor(h1, h2, n);
      MulTwice(h1, p, Pow2(m));
      MulTwice(h2, p, Pow2(m));
      MulTwice(xh, p, Pow2(m));
      MulNat(h1, p);
      MulNat(h2, p);
      MulNat(xh, p);
      var a1, b1, hi1 := h1 * p + l1 / 2, h2 * p + l2 / 2, xh * p;
      XorConcatAt(a1, b1, hi1, h1, l1 / 2, h2, l2 / 2, n, m - 1);
      XorConcatStep(a, b, a1, b1, l1, l2, hi, hi1, n + m, m);
    }
  }

  /** One bit of XorConcat: the lowest bits of the low parts, then the halves. */
  lemma XorConcatStep(a: nat, b: nat, a1: nat, b1: nat, l1: nat, l2: nat, hi: nat, hi1: nat, k: nat, m: nat)
    requires 0 < m <= k
    requires a == 2 * a1 + l1 % 2 && b == 2 * b1 + l2 % 2 && hi == 2 * hi1
    requires Xor(a1, b1, k - 1) == hi1 + Xor(l1 / 2, l2 / 2, m - 1)
    ensures Xor(a, b, k) == hi + Xor(l1, l2, m)
  {
    XorHalves(a, b, a1, b1, l1 % 2, l2 % 2, k);
    XorUnfold(l1, l2, m);
  }

  /** The XOR of two numbers given by their halves and lowest bits. */
  lemma XorHalves(a: nat, b: nat, a1: nat, b1: nat, r: nat, s: nat, k: nat)
    requires r < 2 && s < 2 && a == 2 * a1 + r && b == 2 * b1 + s && k > 0
    ensures Xor(a, b, k) == 2 * Xor(a1, b1, k - 1) + (if r == s then 0 else 1)
  {
    HalfOfSum(a, a1, r);
    HalfOfSum(b, b1, s);
  }

  /** One step of the XOR recursion: the lowest bits, then the rest shifted down. */
  lemma XorUnfold(a: nat, b: nat, k: nat)
    requires k > 0
    ensures Xor(a, b, k) == 2 * Xor(a / 2, b / 2, k - 1) + (if a % 2 == b % 2 then 0 else 1)
  {
  }

  lemma MulTwice(x: nat, p: nat, q: nat)
    requires q == 2 * p
    ensures x * q == 2 * (x * p)
  {
  }

  lemma MulNat(x: nat, y: nat)
    ensures x * y >= 0
  {
  }

  lemma HalfOfSum(a: nat, c: nat, r: nat)
    requires r < 2 && a == 2 * c + r
    ensures a / 2 == c && a % 2 == r
  {
  }

  /** The powers of two up to 2^16, for evaluating concrete ids. */
  lemma Pow2Table()
    ensures Pow2(1) == 2 && Pow2(2) == 4 && Pow2(3) == 8 && Pow2(4) == 16
    ensures Pow2(5) == 32 && Pow2(6) == 64 && Pow2(7) == 128 && Pow2(8) == 256
    ensures Pow2(9) == 512 && Pow2(10) == 1024 && Pow2(11) == 2048 && Pow2(12) == 4096
    ensures Pow2(13) == 8192 && Pow2(14) == 16384 && Pow2(15) == 32768 && Pow2(16) == 65536
  {
    assert Pow2(4) == 16;
    assert Pow2(8) == 256;
    assert Pow2(12) == 4096;
  }

  /** Shifting a positive number left by m bits adds m trailing zeros. */
  lemma {:induction false} TrailingZerosShift(y: nat, m: nat)
    requires y > 0
    ensures y * Pow2(m) > 0 && TrailingZeros(y * Pow2(m)) == TrailingZeros(y) + m
    decreases m
  {
    if m > 0 {
      MulTwice(y, Pow2(m - 1), Pow2(m));
      TrailingZerosShift(y, m - 1);
      TrailingZerosDouble(y * Pow2(m - 1));
    }
  }

  /** Two numbers whose low m bits are all ones XOR to the XOR of their high parts, shifted. */
  lemma XorTrailingOnes(h1: nat, h2: nat, n: nat, m: nat)
    ensures Xor(h1 * Pow2(m) + (Pow2(m) - 1), h2 * Pow2(m) + (Pow2(m) - 1), n + m) == Xor(h1, h2, n) * Pow2(m)
  {
    XorConcat(h1, Pow2(m) - 1, h2, Pow2(m) - 1, n, m);
    XorSelf(Pow2(m) - 1, m);
  }
}
