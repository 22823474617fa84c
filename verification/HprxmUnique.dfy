// The accesses of the splitter are determined: sizes are powers of two, each part of the
// access uses every power of its count once, and the split point is the most aligned
// offset in the range.
module HprxmUnique {
  import opened BitOps
  import opened Hprxm

  ghost predicate Powers(log: seq<Access>) {
    forall i :: 0 <= i < |log| ==> IsPower(log[i].size)
  }

  ghost predicate IsPower(n: nat) { exists k: nat :: n == Pow2(k) }

  lemma GoodPowers(log: seq<Access>, max: nat)
    requires AllGood(log, max)
    ensures Powers(log)
  {
    forall i | 0 <= i < |log| ensures IsPower(log[i].size) {
      assert Good(log[i]);
      var k: nat :| GoodFor(log[i], k);
    }
  }

  // The accesses of a log without its last one.
  function Front(log: seq<Access>): seq<Access>
    requires log != []
  {
    log[..|log| - 1]
  }

  function Last(log: seq<Access>): Access
    requires log != []
  {
    log[|log| - 1]
  }

  lemma FrontPowers(log: seq<Access>)
    requires Powers(log) && log != []
    ensures Powers(Front(log)) && IsPower(Last(log).size)
  {
  }

  lemma {:induction false} TilesGrow(log: seq<Access>, addr: nat, end: nat)
    requires Tiles(log, addr, end)
    ensures addr <= end
  {
    if log != [] {
      TilesGrow(Front(log), addr, Last(log).addr);
    }
  }

  lemma NothingLeft(log: seq<Access>, addr: nat)
    requires Tiles(log, addr, addr) && Powers(log)
    ensures log == []
  {
    if log != [] {
      FrontPowers(log);
      TilesGrow(Front(log), addr, Last(log).addr);
    }
  }

  // Larger powers only: what a descending log covers is a multiple of each of them.
  lemma {:induction false} DescendingAligned(log: seq<Access>, addr: nat, end: nat, j: nat)
    requires Tiles(log, addr, end) && Powers(log) && Descending(log)
    requires log != [] ==> Last(log).size >= Pow2(j)
    ensures addr <= end && Aligned(end - addr, j)
  {
    TilesGrow(log, addr, end);
    if log == [] {
      AlignedZero(j);
    } else {
      FrontPowers(log);
      var k: nat :| Last(log).size == Pow2(k);
      DescendingAligned(Front(log), addr, Last(log).addr, j);
      SmallerPower(j, k);
      AlignedPower(k, j);
      AlignedSum(Last(log).addr - addr, Pow2(k), j);
    }
  }

  lemma SmallerPower(j: nat, k: nat)
    requires Pow2(j) <= Pow2(k)
    ensures j <= k
  {
    if k < j {
      Pow2Mono(k, j);
    }
  }

  lemma LargerPower(j: nat, k: nat)
    requires Pow2(j) < Pow2(k)
    ensures j < k && Pow2(j + 1) <= Pow2(k)
  {
    if k <= j {
      Pow2Mono(k, j);
    } else {
      Pow2Mono(j + 1, k);
    }
  }

  // The last access of a descending log has the size of the lowest bit of what it covers.
  lemma DescendingLast(log: seq<Access>, addr: nat, end: nat) returns (j: nat)
    requires Tiles(log, addr, end) && Powers(log) && Descending(log) && log != []
    ensures Last(log).size == Pow2(j) && addr <= Last(log).addr
    ensures Aligned(end - addr, j) && !Aligned(end - addr, j + 1)
  {
    FrontPowers(log);
    j :| Last(log).size == Pow2(j);
    var front, rest := Front(log), Last(log).addr;
    TilesGrow(front, addr, rest);
    if front != [] {
      FrontPowers(front);
      var m: nat :| Last(front).size == Pow2(m);
      LargerPower(j, m);
    }
    DescendingAligned(front, addr, rest, j + 1);
    LowBit(rest - addr, j);
  }

  // A multiple of 2^(j+1) and 2^j.
  lemma LowBit(x: nat, j: nat)
    requires Aligned(x, j + 1)
    ensures Aligned(x + Pow2(j), j) && !Aligned(x + Pow2(j), j + 1)
  {
    AlignedLess(x, j, j + 1);
    AlignedPower(j, j);
    AlignedSum(x, Pow2(j), j);
    if Aligned(x + Pow2(j), j + 1) {
      AlignedSum(x + Pow2(j), x, j + 1);
      AlignedAtLeast(Pow2(j), j + 1);
    }
  }

  lemma LowestBitUnique(x: nat, i: nat, j: nat)
    requires Aligned(x, i) && !Aligned(x, i + 1) && Aligned(x, j) && !Aligned(x, j + 1)
    ensures i == j
  {
    NotAligned(x, i, j);
    NotAligned(x, j, i);
  }

  // A left-justified access has only one decomposition.
  lemma {:induction false} DescendingUnique(a: seq<Access>, b: seq<Access>, addr: nat, end: nat)
    requires Tiles(a, addr, end) && Powers(a) && Descending(a)
    requires Tiles(b, addr, end) && Powers(b) && Descending(b)
    ensures a == b
    decreases |a|
  {
    if a == [] {
      NothingLeft(b, addr);
    } else if b == [] {
      NothingLeft(a, addr);
    } else {
      var i := DescendingLast(a, addr, end);
      var j := DescendingLast(b, addr, end);
      LowestBitUnique(end - addr, i, j);
      FrontPowers(a);
      FrontPowers(b);
      DescendingUnique(Front(a), Front(b), addr, Last(a).addr);
      assert a == Front(a) + [Last(a)] && b == Front(b) + [Last(b)];
    }
  }

  // Smaller powers only: an ascending log covers less than the next power.
  lemma {:induction false} AscendingBelow(log: seq<Access>, addr: nat, end: nat, k: nat)
    requires Tiles(log, addr, end) && Powers(log) && Ascending(log)
    requires log != [] ==> Last(log).size < Pow2(k)
    ensures addr <= end < addr + Pow2(k)
    decreases |log|
  {
    if log != [] {
      FrontPowers(log);
      var m: nat :| Last(log).size == Pow2(m);
      LargerPower(m, k);
      AscendingBelow(Front(log), addr, Last(log).addr, m);
    }
  }

  // The last access of an ascending log has the size of the highest bit of what it covers.
  lemma AscendingLast(log: seq<Access>, addr: nat, end: nat) returns (k: nat)
    requires Tiles(log, addr, end) && Powers(log) && Ascending(log) && log != []
    ensures addr <= Last(log).addr < end && Last(log).size == Pow2(k) <= end - addr < 2 * Pow2(k)
  {
    FrontPowers(log);
    k :| Last(log).size == Pow2(k);
    AscendingBelow(Front(log), addr, Last(log).addr, k);
  }

  // A right-justified access has only one decomposition.
  lemma {:induction false} AscendingUnique(a: seq<Access>, b: seq<Access>, addr: nat, end: nat)
    requires Tiles(a, addr, end) && Powers(a) && Ascending(a)
    requires Tiles(b, addr, end) && Powers(b) && Ascending(b)
    ensures a == b
    decreases |a|
  {
    if a == [] {
      NothingLeft(b, addr);
    } else if b == [] {
      NothingLeft(a, addr);
    } else {
      var i := AscendingLast(a, addr, end);
      var j := AscendingLast(b, addr, end);
      LogUnique(end - addr, i);
      LogUnique(end - addr, j);
      FrontPowers(a);
      FrontPowers(b);
      AscendingUnique(Front(a), Front(b), addr, Last(a).addr);
      assert a == Front(a) + [Last(a)] && b == Front(b) + [Last(b)];
    }
  }

  // In a range where 2^k has only one multiple, that is the split point.
  lemma OnlyMultiple(s: nat, e: nat, o: nat, k: nat, x: nat)
    requires Passed(s, e, o, k) && s <= x < e && Aligned(x, k)
    ensures x == o
  {
    if x < o {
      AlignedSum(o, x, k);
      AlignedAtLeast(o - x, k);
    } else if o < x {
      AlignedSum(x, o, k);
      AlignedAtLeast(x - o, k);
    }
  }

  lemma SplitUnique(s: nat, e: nat, o1: nat, k1: nat, o2: nat, k2: nat)
    requires Passed(s, e, o1, k1) && Passed(s, e, o2, k2)
    ensures o1 == o2
  {
    if k1 <= k2 {
      AlignedLess(o2, k1, k2);
      OnlyMultiple(s, e, o1, k1, o2);
    } else {
      AlignedLess(o1, k2, k1);
      OnlyMultiple(s, e, o2, k2, o1);
    }
  }

  lemma PartPowers(log: seq<Access>, i: nat)
    requires Powers(log) && i <= |log|
    ensures Powers(log[..i]) && Powers(log[i..])
  {
    forall j | 0 <= j < i ensures IsPower(log[..i][j].size) {
      assert log[..i][j] == log[j];
    }
    forall j | 0 <= j < |log| - i ensures IsPower(log[i..][j].size) {
      assert log[i..][j] == log[i + j];
    }
  }

  lemma UpAndDownUnique(a: seq<Access>, b: seq<Access>, addr: nat, start: nat, count: nat,
                        o1: nat, l1: nat, i1: nat, o2: nat, l2: nat, i2: nat)
    requires UpAndDown(a, addr, start, count, o1, l1, i1) && Powers(a)
    requires UpAndDown(b, addr, start, count, o2, l2, i2) && Powers(b)
    ensures a == b
  {
    SplitUnique(start, start + count, o1, l1, o2, l2);
    PartPowers(a, i1);
    PartPowers(b, i2);
    var mid := addr + (o1 - start);
    AscendingUnique(a[..i1], b[..i2], addr, mid);
    DescendingUnique(a[i1..], b[i2..], mid, addr + count);
    assert a == a[..i1] + a[i1..] && b == b[..i2] + b[i2..];
  }

  // For every access the splitter takes there is one list of accesses that covers it in
  // the order of its branches.
  lemma SplitIsUnique(a: seq<Access>, b: seq<Access>, addr: nat, count: nat)
    requires Tiles(a, addr, addr + count) && AllGood(a, count) && Shaped(a, addr, addr % 32, count)
    requires Tiles(b, addr, addr + count) && AllGood(b, count) && Shaped(b, addr, addr % 32, count)
    ensures a == b
  {
    GoodPowers(a, count);
    GoodPowers(b, count);
    var start := addr % 32;
    if count > 0 {
      if Aligned(start, Log2(count)) {
        DescendingUnique(a, b, addr, addr + count);
      } else if Aligned(start + count, Log2(count)) {
        AscendingUnique(a, b, addr, addr + count);
      } else {
        var o1: nat, l1: nat, i1: nat :| UpAndDown(a, addr, start, count, o1, l1, i1);
        var o2: nat, l2: nat, i2: nat :| UpAndDown(b, addr, start, count, o2, l2, i2);
        UpAndDownUnique(a, b, addr, start, count, o1, l1, i1, o2, l2, i2);
      }
    }
  }

  // The number of one bits.
  function Ones(n: nat): nat { if n == 0 then 0 else n % 2 + Ones(n / 2) }

  lemma {:induction false} OnesLowBit(n: nat, j: nat)
    requires Aligned(n, j) && !Aligned(n, j + 1)
    ensures Pow2(j) <= n && Ones(n) == Ones(n - Pow2(j)) + 1
    decreases j
  {
    if j == 0 {
      assert n % 2 == 1 by {
        assert Aligned(n / 2, 0);
      }
      OnesOdd(n);
    } else {
      OnesLowBit(n / 2, j - 1);
      var m := n - Pow2(j);
      assert m / 2 == n / 2 - Pow2(j - 1) && m % 2 == 0;
      OnesHalf(m);
      OnesHalf(n);
    }
  }

  lemma OnesHalf(n: nat)
    ensures Ones(n) == n % 2 + Ones(n / 2)
  {
  }

  lemma OnesOdd(n: nat)
    requires n % 2 == 1
    ensures Ones(n) == Ones(n - 1) + 1
  {
    OnesHalf(n);
    OnesHalf(n - 1);
    assert (n - 1) / 2 == n / 2 && (n - 1) % 2 == 0;
  }

  lemma {:induction false} OnesHighBit(n: nat, k: nat)
    requires Pow2(k) <= n < 2 * Pow2(k)
    ensures Ones(n) == Ones(n - Pow2(k)) + 1
    decreases k
  {
    if k == 0 {
      assert n == 1;
      OnesOdd(1);
    } else {
      OnesHighBit(n / 2, k - 1);
      var m := n - Pow2(k);
      assert m / 2 == n / 2 - Pow2(k - 1) && m % 2 == n % 2;
      OnesHalf(m);
      OnesHalf(n);
    }
  }

  // A justified access takes as many accesses as its count has one bits.
  lemma {:induction false} DescendingCount(log: seq<Access>, addr: nat, end: nat)
    requires Tiles(log, addr, end) && Powers(log) && Descending(log)
    ensures addr <= end && |log| == Ones(end - addr)
    decreases |log|
  {
    if log != [] {
      var j := DescendingLast(log, addr, end);
      FrontPowers(log);
      DescendingCount(Front(log), addr, Last(log).addr);
      OnesLowBit(end - addr, j);
    }
  }

  lemma {:induction false} AscendingCount(log: seq<Access>, addr: nat, end: nat)
    requires Tiles(log, addr, end) && Powers(log) && Ascending(log)
    ensures addr <= end && |log| == Ones(end - addr)
    decreases |log|
  {
    if log != [] {
      var k := AscendingLast(log, addr, end);
      FrontPowers(log);
      AscendingCount(Front(log), addr, Last(log).addr);
      OnesHighBit(end - addr, k);
    }
  }

  // In one part: as many accesses as one bits; a power of two at an aligned start is a
  // single access.
  lemma OnePartCount(log: seq<Access>, addr: nat, count: nat)
    requires Tiles(log, addr, addr + count) && AllGood(log, count) && Shaped(log, addr, addr % 32, count)
    requires count > 0 && (Aligned(addr % 32, Log2(count)) || Aligned(addr % 32 + count, Log2(count)))
    ensures |log| == Ones(count)
    ensures count == Pow2(Log2(count)) ==> log == [Access(addr, count)]
  {
    GoodPowers(log, count);
    if Aligned(addr % 32, Log2(count)) {
      DescendingCount(log, addr, addr + count);
    } else {
      AscendingCount(log, addr, addr + count);
    }
    if count == Pow2(Log2(count)) {
      OnesOfPower(count);
      OneAccess(log, addr, count);
    }
  }

  lemma OnesOfPower(n: nat)
    requires n > 0 && n == Pow2(Log2(n))
    ensures Ones(n) == 1
  {
    OnesHighBit(n, Log2(n));
  }

  lemma OneAccess(log: seq<Access>, addr: nat, count: nat)
    requires Tiles(log, addr, addr + count) && |log| == 1
    ensures log == [Access(addr, count)]
  {
    assert log[..0] == [];
  }
}
