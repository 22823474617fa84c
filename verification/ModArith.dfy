// Remainders by a divisor that is not a constant.
module ModArith {

  lemma ModStep(x: nat, cap: nat)
    requires cap > 0
    ensures ((x % cap) + 1) % cap == (x + 1) % cap
  {
    var k := x / cap;
    assert x == cap * k + x % cap;
    if x % cap + 1 == cap {
      ModUnique(x + 1, cap, k + 1, 0);
      ModUnique(cap, cap, 1, 0);
    } else {
      ModUnique(x + 1, cap, k, x % cap + 1);
      ModUnique(x % cap + 1, cap, 0, x % cap + 1);
    }
  }

  lemma MulAtLeast(cap: nat, d: int)
    requires d >= 1
    ensures cap * d >= cap
  {
    assert cap * d == cap * (d - 1) + cap;
  }

  lemma ModUnique(x: int, cap: nat, k: int, r: nat)
    requires cap > 0 && r < cap && x == cap * k + r
    ensures x % cap == r
  {
    var q, m := x / cap, x % cap;
    QuotientUnique(x, cap, k, r, q, m);
  }

  lemma QuotientUnique(x: int, cap: nat, k: int, r: nat, q: int, m: nat)
    requires cap > 0 && r < cap && m < cap && x == cap * k + r && x == cap * q + m
    ensures k == q && r == m
  {
    assert cap * (k - q) == cap * k - cap * q == m - r;
    assert cap * (q - k) == cap * q - cap * k == r - m;
    if k > q {
      MulAtLeast(cap, k - q);
    } else if k < q {
      MulAtLeast(cap, q - k);
    }
  }
}
