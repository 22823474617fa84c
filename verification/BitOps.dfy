// Bit-twiddling on 16-bit numbers, over natural numbers: how the kernel module rounds
// to powers of two.
module BitOps {
  import opened Consts
  import opened ModArith

  function Pow2(k: nat): (p: nat)
    ensures p > 0
  {
    if k == 0 then 1 else 2 * Pow2(k - 1)
  }

  // The position of the highest bit.
  function Log2(n: nat): (k: nat)
    requires n > 0
    ensures Pow2(k) <= n < 2 * Pow2(k)
  {
    if n == 1 then 0 else 1 + Log2(n / 2)
  }

  function Or(a: nat, b: nat): nat {
    if a == 0 && b == 0 then 0
    else 2 * Or(a / 2, b / 2) + (if a % 2 == 1 || b % 2 == 1 then 1 else 0)
  }

  function And(a: nat, b: nat): nat
    decreases a + b
  {
    if a == 0 && b == 0 then 0
    else 2 * And(a / 2, b / 2) + (if a % 2 == 1 && b % 2 == 1 then 1 else 0)
  }

  // n >> k and n << k
  function Shr(n: nat, k: nat): nat { if k == 0 then n else Shr(n / 2, k - 1) }

  function Shl(n: nat, k: nat): nat { if k == 0 then n else 2 * Shl(n, k - 1) }

  // num |= num >> k
  function SmearLine(n: nat, k: nat): nat { Or(n, Shr(n, k)) }

  lemma {:induction false} Pow2Mono(a: nat, b: nat)
    requires a <= b
    ensures Pow2(a) <= Pow2(b)
    ensures a < b ==> 2 * Pow2(a) <= Pow2(b)
    decreases b
  {
    if a < b {
      Pow2Mono(a, b - 1);
    }
  }

  lemma Pow2Values()
    ensures Pow2(2) == 4 && Pow2(5) == 32 && Pow2(6) == 64 && Pow2(15) == 0x8000 && Pow2(16) == U16
  {
    assert Pow2(4) == 16;
    assert Pow2(8) == 256;
    assert Pow2(12) == 4096;
  }

  lemma {:induction false} OrShift(a: nat, b: nat, k: nat)
    ensures Shr(Or(a, b), k) == Or(Shr(a, k), Shr(b, k))
    decreases k
  {
    if k > 0 {
      assert Or(a, b) / 2 == Or(a / 2, b / 2);
      OrShift(a / 2, b / 2, k - 1);
    }
  }

  lemma {:induction false} OrZero(y: nat)
    ensures Or(y, 0) == y
  {
    if y > 0 {
      OrZero(y / 2);
    }
  }

  // Or-ing w ones into the low end.
  lemma {:induction false} OrLowOnes(y: nat, w: nat)
    ensures Or(y, Pow2(w) - 1) == Shl(Shr(y, w), w) + (Pow2(w) - 1)
    decreases w
  {
    if w == 0 {
      OrZero(y);
    } else {
      assert (Pow2(w) - 1) / 2 == Pow2(w - 1) - 1;
      OrLowOnes(y / 2, w - 1);
    }
  }

  lemma {:induction false} ShlOnes(a: nat, w: nat)
    ensures Shl(Pow2(a) - 1, w) == Pow2(a + w) - Pow2(w)
    decreases w
  {
    if w > 0 {
      ShlOnes(a, w - 1);
    }
  }

  lemma {:induction false} ShrOnes(w: nat, d: nat)
    requires d <= w
    ensures Shr(Pow2(w) - 1, d) == Pow2(w - d) - 1
    decreases d
  {
    if d > 0 {
      assert (Pow2(w) - 1) / 2 == Pow2(w - 1) - 1;
      ShrOnes(w - 1, d - 1);
    }
  }

  lemma {:induction false} ShrShr(n: nat, a: nat, b: nat)
    ensures Shr(Shr(n, a), b) == Shr(n, a + b)
    decreases a
  {
    if a > 0 {
      ShrShr(n / 2, a - 1, b);
    }
  }

  lemma {:induction false} ShrBound(n: nat, k: nat)
    ensures Shr(n, k) <= n
    decreases k
  {
    if k > 0 {
      ShrBound(n / 2, k - 1);
    }
  }

  lemma {:induction false} OrBound(a: nat, b: nat, k: nat)
    requires a < Pow2(k) && b < Pow2(k)
    ensures Or(a, b) < Pow2(k)
    decreases k
  {
    if k > 0 {
      OrBound(a / 2, b / 2, k - 1);
    }
  }

  // n has k + 1 bits and the top w of them are ones.
  ghost predicate TopOnes(n: nat, k: nat, w: nat)
    requires w <= k + 1
  {
    n < Pow2(k + 1) && Shr(n, k + 1 - w) == Pow2(w) - 1
  }

  lemma {:induction false} TopBit(n: nat, k: nat)
    requires Pow2(k) <= n < Pow2(k + 1)
    ensures Shr(n, k) == 1
    decreases k
  {
    if k > 0 {
      TopBit(n / 2, k - 1);
    }
  }

  // One line of the smear doubles the run of ones at the top.
  lemma SmearDoubles(n: nat, k: nat, w: nat)
    requires 0 < w && 2 * w <= k + 1 && TopOnes(n, k, w)
    ensures TopOnes(SmearLine(n, w), k, 2 * w)
  {
    var j := k + 1 - 2 * w;
    var y := Shr(n, j);
    ShrShr(n, j, w);
    ShrShr(n, w, j);
    OrShift(n, Shr(n, w), j);
    OrLowOnes(y, w);
    ShlOnes(w, w);
    ShrBound(n, w);
    OrBound(n, Shr(n, w), k + 1);
  }

  // Once the run of ones covers half or more, the line fills everything.
  lemma SmearFills(n: nat, k: nat, w: nat)
    requires 0 < w <= k + 1 <= 2 * w && TopOnes(n, k, w)
    ensures SmearLine(n, w) == Pow2(k + 1) - 1
  {
    var rest := k + 1 - w;
    ShrShr(n, rest, w - rest);
    ShrOnes(w, w - rest);
    OrLowOnes(n, rest);
    ShlOnes(w, rest);
  }

  lemma {:induction false} OrAbsorb(b: nat, k: nat)
    requires b < Pow2(k)
    ensures Or(Pow2(k) - 1, b) == Pow2(k) - 1
    decreases k
  {
    if k > 0 {
      assert Pow2(k) == 2 * Pow2(k - 1);
      OrAbsorb(b / 2, k - 1);
      OrHalves(Pow2(k - 1), b);
    }
  }

  lemma OrHalves(p: nat, b: nat)
    requires p > 0
    ensures Or(2 * p - 1, b) == 2 * Or(p - 1, b / 2) + 1
  {
    assert (2 * p - 1) / 2 == p - 1 && (2 * p - 1) % 2 == 1;
  }

  // A number of all ones stays as it is.
  lemma SmearDone(k: nat, w: nat)
    ensures SmearLine(Pow2(k + 1) - 1, w) == Pow2(k + 1) - 1
  {
    ShrBound(Pow2(k + 1) - 1, w);
    OrAbsorb(Shr(Pow2(k + 1) - 1, w), k + 1);
  }

  // How far the top ones reach after a line with shift w, or all ones.
  ghost predicate Reached(n: nat, k: nat, w: nat) {
    if w <= k + 1 then TopOnes(n, k, w) else n == Pow2(k + 1) - 1
  }

  lemma SmearStep(n: nat, k: nat, w: nat)
    requires 0 < w && Reached(n, k, w)
    ensures Reached(SmearLine(n, w), k, 2 * w)
  {
    if w > k + 1 {
      SmearDone(k, w);
    } else if 2 * w <= k + 1 {
      SmearDoubles(n, k, w);
    } else {
      SmearFills(n, k, w);
    }
  }

  // Four lines fill every bit below the highest one of a 16-bit number.
  method Smear(num: nat) returns (r: nat)
    requires num < U16
    ensures r == if num == 0 then 0 else 2 * Pow2(Log2(num)) - 1
  {
    if num == 0 {
      assert SmearLine(0, 1) == 0 && SmearLine(0, 2) == 0 && SmearLine(0, 4) == 0 && SmearLine(0, 8) == 0;
      return 0;
    }
    ghost var k := Log2(num);
    LogOf16Bits(num);
    TopBit(num, k);
    var a := SmearOnce(num, k, 1);
    var b := SmearOnce(a, k, 2);
    var c := SmearOnce(b, k, 4);
    r := SmearOnce(c, k, 8);
    assert k == 15 ==> Shr(r, 0) == r;
  }

  method SmearOnce(num: nat, ghost k: nat, shift: nat) returns (r: nat)
    requires 0 < shift && Reached(num, k, shift)
    ensures Reached(r, k, 2 * shift)
  {
    SmearStep(num, k, shift);
    r := SmearLine(num, shift);
  }

  lemma LogOf16Bits(n: nat)
    requires 0 < n < U16
    ensures Log2(n) < 16 && Pow2(Log2(n)) <= n < Pow2(Log2(n) + 1)
  {
    Pow2Values();
    LogBound(n, 16);
  }

  // The least power of two that is not smaller than n.
  function PowerNotBelow(n: nat): (p: nat)
    requires n > 0
    ensures n <= p && (n > 1 ==> p < 2 * n)
  {
    if n == Pow2(Log2(n)) then n else 2 * Pow2(Log2(n))
  }

  // --num, smear, ++num: the least power of two that is not smaller, up to 2^15; for 0
  // and above 2^15 the 16-bit result wraps to 0.
  method RoundUpToPo2(num: nat) returns (r: nat)
    requires num < U16
    ensures r == if 0 < num <= 0x8000 then PowerNotBelow(num) else 0
  {
    var x := Smear((num - 1) % U16);
    RoundUpArithmetic(num, x);
    r := (x + 1) % U16;
  }

  lemma RoundUpMid(n: nat)
    requires 2 <= n <= 0x8000
    ensures 2 * Pow2(Log2(n - 1)) == PowerNotBelow(n) <= 0x8000
  {
    NextPowerLog(n);
    var k := Log2(n - 1);
    Pow2Values();
    LogBound(n - 1, 15);
    Pow2Mono(k + 1, 15);
  }

  lemma RoundUpTop(m: nat)
    requires 0x8000 <= m < U16
    ensures 2 * Pow2(Log2(m)) == U16
  {
    Pow2Values();
    LogUnique(m, 15);
  }

  lemma RoundUpArithmetic(num: nat, x: nat)
    requires num < U16
    requires var m := (num - 1) % U16; x == if m == 0 then 0 else 2 * Pow2(Log2(m)) - 1
    ensures (x + 1) % U16 == if 0 < num <= 0x8000 then PowerNotBelow(num) else 0
  {
    var m := (num - 1) % U16;
    assert m == if num == 0 then U16 - 1 else num - 1;
    if num == 0 || num > 0x8000 {
      RoundUpTop(m);
    } else if num > 1 {
      RoundUpMid(num);
    }
  }

  lemma NextPowerLog(n: nat)
    requires 2 <= n
    ensures Pow2(Log2(n - 1) + 1) == PowerNotBelow(n)
  {
    var k := Log2(n - 1);
    if n == Pow2(k + 1) {
      LogUnique(n, k + 1);
    } else {
      LogUnique(n, k);
    }
  }

  lemma LogUnique(n: nat, k: nat)
    requires n > 0 && Pow2(k) <= n < Pow2(k + 1)
    ensures Log2(n) == k
  {
    if Log2(n) < k {
      Pow2Mono(Log2(n), k);
    } else if Log2(n) > k {
      Pow2Mono(k, Log2(n));
    }
  }

  lemma LogBound(n: nat, k: nat)
    requires 0 < n < Pow2(k)
    ensures Log2(n) < k
  {
    if Log2(n) >= k {
      Pow2Mono(k, Log2(n));
    }
  }

  // Half of the rounded-up value is the largest power of two strictly below n.
  lemma HalfPower(n: nat)
    requires n >= 2
    ensures PowerNotBelow(n) / 2 == Pow2(Log2(n - 1))
    ensures Pow2(Log2(n - 1)) < n <= 2 * Pow2(Log2(n - 1))
  {
    NextPowerLog(n);
  }

  // The mask of the largest power of two that is not greater.
  method RoundDownToPo2Mask(num: nat) returns (r: nat)
    requires num < U16
    ensures r == if num == 0 then 0 else Pow2(Log2(num)) - 1
  {
    var x := Smear(num);
    r := x / 2;
  }

  // x is a multiple of 2^k: its k lowest bits are clear.
  predicate Aligned(x: nat, k: nat) {
    k == 0 || (x % 2 == 0 && Aligned(x / 2, k - 1))
  }

  // And-ing with 2^k - 1 tests for multiples of 2^k.
  lemma {:induction false} AndMask(x: nat, k: nat)
    ensures And(x, Pow2(k) - 1) == 0 <==> Aligned(x, k)
    decreases k
  {
    if k == 0 {
      AndZero(x);
    } else {
      assert (Pow2(k) - 1) / 2 == Pow2(k - 1) - 1;
      AndMask(x / 2, k - 1);
    }
  }

  // And-ing with 2^k - 1 gives the remainder by 2^k.
  lemma {:induction false} AndIsMod(x: nat, k: nat)
    ensures And(x, Pow2(k) - 1) == x % Pow2(k)
    decreases k
  {
    if k == 0 {
      AndZero(x);
    } else {
      var p := Pow2(k - 1);
      assert Pow2(k) == 2 * p;
      AndIsMod(x / 2, k - 1);
      AndHalves(x, p);
      ModHalves(x, p);
    }
  }

  lemma ModHalves(x: nat, p: nat)
    requires p > 0
    ensures x % (2 * p) == 2 * ((x / 2) % p) + x % 2
  {
    var h, b := x / 2, x % 2;
    var q, r := h / p, h % p;
    assert x == 2 * h + b;
    assert h == p * q + r;
    Double(p, q, r, b, x);
    ModUnique(x, 2 * p, q, 2 * r + b);
  }

  lemma AndHalves(x: nat, p: nat)
    requires p > 0
    ensures And(x, 2 * p - 1) == 2 * And(x / 2, p - 1) + x % 2
  {
    assert (2 * p - 1) / 2 == p - 1 && (2 * p - 1) % 2 == 1;
  }

  lemma {:induction false} AndZero(x: nat)
    ensures And(x, 0) == 0
  {
    if x > 0 {
      AndZero(x / 2);
    }
  }

  lemma HalfMod(x: nat, p: nat)
    requires p > 0
    ensures x % (2 * p) == 0 <==> (x % 2 == 0 && (x / 2) % p == 0)
  {
    var h, b := x / 2, x % 2;
    var q, r := h / p, h % p;
    assert x == 2 * h + b;
    assert h == p * q + r;
    Double(p, q, r, b, x);
    ModUnique(x, 2 * p, q, 2 * r + b);
  }

  lemma Double(p: nat, q: nat, r: nat, b: nat, x: nat)
    requires x == 2 * (p * q + r) + b
    ensures x == (2 * p) * q + (2 * r + b)
  {
    assert 2 * (p * q) == (2 * p) * q;
  }

  // So does the remainder.
  lemma {:induction false} ModPow2(x: nat, k: nat)
    ensures x % Pow2(k) == 0 <==> Aligned(x, k)
    decreases k
  {
    if k > 0 {
      ModPow2(x / 2, k - 1);
      HalfMod(x, Pow2(k - 1));
    }
  }

  lemma {:induction false} AlignedLess(x: nat, j: nat, k: nat)
    requires j <= k && Aligned(x, k)
    ensures Aligned(x, j)
    decreases j
  {
    if j > 0 {
      AlignedLess(x / 2, j - 1, k - 1);
    }
  }

  lemma {:induction false} AlignedSum(a: nat, b: nat, k: nat)
    requires Aligned(a, k) && Aligned(b, k)
    ensures Aligned(a + b, k)
    ensures b <= a ==> Aligned(a - b, k)
    decreases k
  {
    if k > 0 {
      AlignedSum(a / 2, b / 2, k - 1);
      assert (a + b) / 2 == a / 2 + b / 2;
      assert b <= a ==> (a - b) / 2 == a / 2 - b / 2;
    }
  }

  lemma {:induction false} AlignedPower(m: nat, k: nat)
    requires k <= m
    ensures Aligned(Pow2(m), k)
    decreases k
  {
    if k > 0 {
      AlignedPower(m - 1, k - 1);
    }
  }

  // A positive multiple of 2^k is at least 2^k; an odd one becomes a multiple of the
  // next power when 2^k is taken off.
  lemma {:induction false} AlignedAtLeast(x: nat, k: nat)
    requires x > 0 && Aligned(x, k)
    ensures Pow2(k) <= x
    ensures !Aligned(x, k + 1) ==> Aligned(x - Pow2(k), k + 1)
    decreases k
  {
    if k == 0 {
      assert Aligned(x, 1) <==> x % 2 == 0;
    } else {
      AlignedAtLeast(x / 2, k - 1);
      assert (x - Pow2(k)) / 2 == x / 2 - Pow2(k - 1);
    }
  }
}
