// Access to a BAR behind a high-performance RX master: every access must be a power of
// two in size and aligned to its size within a 32-byte frame, so any other access is
// split. The methods return the accesses they issue, in order.
module Hprxm {
  import opened Consts
  import opened BitOps

  datatype Access = Access(addr: nat, size: nat)

  // An access of 2^k bytes, at least a DWORD, at a multiple of its size - or, when it
  // is larger than a 32-byte frame, at the start of a frame.
  predicate GoodFor(a: Access, k: nat) {
    2 <= k && a.size == Pow2(k) && Aligned(a.addr, if k <= 5 then k else 5)
  }

  ghost predicate Good(a: Access) { exists k: nat :: GoodFor(a, k) }

  // What the bridge asks for: a power of two, aligned to its size within its frame.
  lemma GoodIsAligned(a: Access)
    requires Good(a)
    ensures a.size >= 4 && (a.addr % 32) % a.size == 0
  {
    var k: nat :| GoodFor(a, k);
    Pow2Mono(2, k);
    assert Pow2(2) == 4 && Pow2(3) == 8 && Pow2(4) == 16 && Pow2(5) == 32;
    if k <= 5 {
      ModPow2(a.addr, k);
      FrameMod(a.addr, a.size);
    } else {
      ModPow2(a.addr, 5);
      ZeroMod(a.size);
    }
  }

  lemma FrameMod(o: nat, p: nat)
    requires (p == 4 || p == 8 || p == 16 || p == 32) && o % p == 0
    ensures (o % 32) % p == 0
  {
    var d := o / 32;
    assert o == 32 * d + o % 32;
    if p == 4 {
      assert o % 32 == 4 * (o / 4 - 8 * d);
    } else if p == 8 {
      assert o % 32 == 8 * (o / 8 - 4 * d);
    } else if p == 16 {
      assert o % 32 == 16 * (o / 16 - 2 * d);
    }
  }

  lemma ZeroMod(p: nat)
    requires p > 0
    ensures 0 % p == 0
  {
  }

  ghost predicate AllGood(log: seq<Access>, max: nat) {
    forall i :: 0 <= i < |log| ==> Good(log[i]) && log[i].size <= max
  }

  // The accesses cover [addr, end) once, without gap or overlap, in order.
  predicate Tiles(log: seq<Access>, addr: nat, end: nat) {
    if log == [] then addr == end
    else
      var last := log[|log| - 1];
      last.addr + last.size == end && Tiles(log[..|log| - 1], addr, last.addr)
  }

  lemma TilesAppend(log: seq<Access>, addr: nat, end: nat, a: Access)
    requires Tiles(log, addr, end) && a.addr == end
    ensures Tiles(log + [a], addr, end + a.size)
  {
    assert (log + [a])[..|log|] == log;
  }

  lemma {:induction false} TilesConcat(xs: seq<Access>, ys: seq<Access>, addr: nat, mid: nat, end: nat)
    requires Tiles(xs, addr, mid) && Tiles(ys, mid, end)
    ensures Tiles(xs + ys, addr, end)
    decreases |ys|
  {
    if ys == [] {
      assert xs + ys == xs;
    } else {
      var last := ys[|ys| - 1];
      TilesConcat(xs, ys[..|ys| - 1], addr, mid, last.addr);
      assert (xs + ys)[..|xs + ys| - 1] == xs + ys[..|ys| - 1];
    }
  }

  // Sizes strictly decrease, or strictly increase.
  predicate Descending(log: seq<Access>) {
    |log| <= 1 || (log[|log| - 2].size > log[|log| - 1].size && Descending(log[..|log| - 1]))
  }

  predicate Ascending(log: seq<Access>) {
    |log| <= 1 || (log[|log| - 2].size < log[|log| - 1].size && Ascending(log[..|log| - 1]))
  }

  lemma DescendOn(log: seq<Access>, a: Access)
    requires Descending(log) && (log == [] || a.size < log[|log| - 1].size)
    ensures Descending(log + [a])
  {
    assert (log + [a])[..|log|] == log;
  }

  lemma AscendOn(log: seq<Access>, a: Access)
    requires Ascending(log) && (log == [] || a.size > log[|log| - 1].size)
    ensures Ascending(log + [a])
  {
    assert (log + [a])[..|log|] == log;
  }

  lemma Frame(base: nat)
    requires base % 32 == 0
    ensures Aligned(base, 5)
  {
    ModPow2(base, 5);
    assert Pow2(5) == 32;
  }

  // An access at a multiple of its size from a frame base.
  lemma GoodAccess(base: nat, o: nat, k: nat)
    requires Aligned(base, 5) && Aligned(o, k) && k >= 2
    ensures Good(Access(base + o, Pow2(k)))
  {
    AlignedBoth(base, o, k, 5);
    assert GoodFor(Access(base + o, Pow2(k)), k);
  }

  lemma AlignedBoth(base: nat, o: nat, k: nat, frame: nat)
    requires Aligned(base, frame) && Aligned(o, k)
    ensures Aligned(base + o, if k <= frame then k else frame)
  {
    var m := if k <= frame then k else frame;
    AlignedLess(base, m, frame);
    AlignedLess(o, m, k);
    AlignedSum(base, o, m);
  }

  // What both justified parts keep: `log` covers what was asked for up to `a`, which
  // lies o bytes after a frame base, and c bytes are left.
  ghost predicate Going(log: seq<Access>, addr: nat, count: nat, base: nat, a: nat, o: nat, c: nat) {
    && a == base + o && a + c == addr + count && c <= count && Aligned(c, 2)
    && Tiles(log, addr, a) && AllGood(log, count)
  }

  lemma GoOn(log: seq<Access>, addr: nat, count: nat, base: nat, a: nat, o: nat, c: nat, k: nat)
    requires Going(log, addr, count, base, a, o, c)
    requires Aligned(base, 5) && Aligned(o, k) && 2 <= k && Pow2(k) <= c
    ensures Going(log + [Access(a, Pow2(k))], addr, count, base, a + Pow2(k), o + Pow2(k), c - Pow2(k))
  {
    GoodAccess(base, o, k);
    TilesAppend(log, addr, a, Access(a, Pow2(k)));
    AlignedPower(k, 2);
    AlignedSum(c, Pow2(k), 2);
  }

  // The power with which a left-justified access starts: the rounded-up count.
  ghost function StartPower(count: nat): nat
    requires count > 0
  {
    if count == Pow2(Log2(count)) then Log2(count) else Log2(count) + 1
  }

  // Largest power first: what is left is less than twice the current power throughout.
  method AccessLeftJustified(addr: nat, count: nat, ghost base: nat, ghost start: nat) returns (log: seq<Access>)
    requires addr == base + start && Aligned(base, 5) && Aligned(count, 2) && count <= 0x8000
    requires count > 0 ==> Aligned(start, Log2(count))
    ensures Tiles(log, addr, addr + count) && AllGood(log, count) && Descending(log)
    ensures count == 0 ==> log == []
  {
    var a: nat, c: nat := addr, count;
    var po2 := RoundUpToPo2(count);
    ghost var o: nat := start;
    ghost var k: nat := if count == 0 then 0 else StartPower(count);
    log := [];
    while c > 0
      invariant Going(log, addr, count, base, a, o, c)
      invariant c > 0 ==> po2 == Pow2(k) && LeftOk(c, o, k)
      invariant LeftLog(log, if c > 0 then po2 else 0) && (count == 0 ==> log == [])
      decreases if c > 0 then k + 1 else 0
    {
      log, a, c, po2, o, k := LeftTurn(log, a, c, po2, addr, count, base, o, k);
    }
  }

  // The accesses so far get smaller, and all are larger than the power that comes next.
  ghost predicate LeftLog(log: seq<Access>, po2: nat) {
    Descending(log) && (log != [] ==> po2 < log[|log| - 1].size)
  }

  // One turn of the outer loop: an access of the current power if it fits, then half of it.
  method LeftTurn(log0: seq<Access>, a0: nat, c0: nat, po2: nat,
                  ghost addr: nat, ghost count: nat, ghost base: nat, ghost o0: nat, ghost k0: nat)
      returns (log: seq<Access>, a: nat, c: nat, next: nat, ghost o: nat, ghost k: nat)
    requires Going(log0, addr, count, base, a0, o0, c0) && Aligned(base, 5)
    requires 0 < c0 && po2 == Pow2(k0) && LeftOk(c0, o0, k0) && LeftLog(log0, po2)
    ensures Going(log, addr, count, base, a, o, c)
    ensures k + 1 == k0 && next == Pow2(k) && LeftOk(c, o, k) && LeftLog(log, next)
  {
    LeftPower(c0, o0, k0);
    DescendIf(log0, Access(a0, po2));
    log, a, c, o := AccessWhileFits(log0, a0, c0, po2, addr, count, base, o0, k0);
    LeftOkNext(c, o, k0);
    next := po2 / 2;
    k := k0 - 1;
    assert next < po2;
  }

  lemma DescendIf(log: seq<Access>, a: Access)
    requires Descending(log)
    ensures (log == [] || a.size < log[|log| - 1].size) ==> Descending(log + [a])
  {
    if log == [] || a.size < log[|log| - 1].size {
      DescendOn(log, a);
    }
  }

  // c bytes are left at o: less than twice the power, and aligned for what comes next.
  ghost predicate LeftOk(c: nat, o: nat, k: nat) {
    c < 2 * Pow2(k) && Aligned(o, if c >= Pow2(k) || k == 0 then k else k - 1)
  }

  lemma LeftOkNext(c: nat, o: nat, k: nat)
    requires k >= 2 && c < Pow2(k) && Aligned(o, k - 1)
    ensures LeftOk(c, o, k - 1) && Pow2(k) / 2 == Pow2(k - 1)
  {
    AlignedLess(o, k - 2, k - 1);
  }

  // The inner loop: accesses of one size, of which there is at most one.
  method AccessWhileFits(log0: seq<Access>, a0: nat, c0: nat, po2: nat,
                         ghost addr: nat, ghost count: nat, ghost base: nat, ghost o0: nat, ghost k: nat)
      returns (log: seq<Access>, a: nat, c: nat, ghost o: nat)
    requires Going(log0, addr, count, base, a0, o0, c0) && Aligned(base, 5) && k >= 2
    requires po2 == Pow2(k) && c0 < 2 * po2 && Aligned(o0, if c0 >= po2 then k else k - 1)
    ensures Going(log, addr, count, base, a, o, c) && c < po2 && Aligned(o, k - 1)
    ensures log == if c0 >= po2 then log0 + [Access(a0, po2)] else log0
  {
    log, a, c, o := log0, a0, c0, o0;
    while c >= po2
      invariant Going(log, addr, count, base, a, o, c)
      invariant (c == c0 && a == a0 && log == log0) || (c == c0 - po2 && log == log0 + [Access(a0, po2)])
      invariant c < 2 * po2 && Aligned(o, if c >= po2 then k else k - 1)
    {
      GoOn(log, addr, count, base, a, o, c, k);
      LeftStep(o, k);
      log := log + [Access(a, po2)];
      a, o, c := a + po2, o + po2, c - po2;
    }
  }

  lemma LeftPower(c: nat, o: nat, k: nat)
    requires 0 < c && LeftOk(c, o, k) && Aligned(c, 2)
    ensures k >= 2
  {
    AlignedAtLeast(c, 2);
    assert Pow2(0) == 1 && Pow2(1) == 2 && Pow2(2) == 4;
  }

  lemma LeftStep(o: nat, k: nat)
    requires Aligned(o, k) && k >= 2
    ensures Aligned(o + Pow2(k), k) && Aligned(o + Pow2(k), k - 1)
  {
    AlignedPower(k, k);
    AlignedSum(o, Pow2(k), k);
    AlignedLess(o + Pow2(k), k - 1, k);
  }

  // Smallest power first: what remains is a multiple of ever larger powers.
  method AccessRightJustified(addr: nat, count: nat, ghost base: nat, ghost start: nat) returns (log: seq<Access>)
    requires addr == base + start && Aligned(base, 5) && Aligned(count, 2) && count < 0x8000
    requires count > 0 ==> Aligned(start + count, Log2(count))
    ensures Tiles(log, addr, addr + count) && AllGood(log, count) && Ascending(log)
  {
    var a: nat, c: nat := addr, count;
    var po2 := 2;
    ghost var o: nat := start;
    ghost var j: nat := 0;
    log := [];
    while c > 0
      invariant Going(log, addr, count, base, a, o, c) && o + c == start + count
      invariant c > 0 ==> po2 == Pow2(j + 1) && Aligned(c, j)
      invariant Ascending(log) && (log != [] ==> log[|log| - 1].size < Pow2(j))
      decreases if c > 0 then count - Pow2(j) + 1 else 0
    {
      AlignedAtLeast(c, j);
      log, a, c, o := RightTurn(log, a, c, po2, addr, count, base, o, j);
      j := j + 1;
      po2 := DoublePower(po2, c, j);
    }
  }

  // One turn: an access of half the power if what remains is no multiple of the power.
  method RightTurn(log0: seq<Access>, a0: nat, c0: nat, po2: nat,
                   ghost addr: nat, ghost count: nat, ghost base: nat, ghost o0: nat, ghost j: nat)
      returns (log: seq<Access>, a: nat, c: nat, ghost o: nat)
    requires Going(log0, addr, count, base, a0, o0, c0) && Aligned(base, 5) && 0 < c0
    requires po2 == Pow2(j + 1) && Aligned(c0, j) && Aligned(o0 + c0, Log2(count))
    requires Ascending(log0) && (log0 != [] ==> log0[|log0| - 1].size < Pow2(j))
    ensures Going(log, addr, count, base, a, o, c) && o + c == o0 + c0 && Aligned(c, j + 1)
    ensures Ascending(log) && (log != [] ==> log[|log| - 1].size < Pow2(j + 1))
  {
    log, a, c, o := log0, a0, c0, o0;
    ModPow2(c, j + 1);
    var half := po2 / 2;
    assert half == Pow2(j);
    if c % po2 != 0 {
      RightStep(o, c, count, j);
      GoOn(log, addr, count, base, a, o, c, j);
      AscendOn(log, Access(a, half));
      log := log + [Access(a, half)];
      a, o, c := a + half, o + half, c - half;
    }
  }

  // po2 <<= 1 in 16 bits: no wrap-around while something is left.
  method DoublePower(po2: nat, c: nat, ghost j: nat) returns (r: nat)
    requires c < 0x8000 && po2 == Pow2(j) && (c > 0 ==> Aligned(c, j))
    ensures c > 0 ==> r == Pow2(j + 1) && Pow2(j) <= c
  {
    if c > 0 {
      AlignedAtLeast(c, j);
    }
    r := (po2 * 2) % U16;
  }

  // A power beyond those that divide x.
  lemma NotAligned(x: nat, j: nat, k: nat)
    requires Aligned(x, k) && !Aligned(x, j + 1)
    ensures k <= j
  {
    if j + 1 <= k {
      AlignedLess(x, j + 1, k);
    }
  }

  lemma RightStep(o: nat, c: nat, count: nat, j: nat)
    requires 0 < c <= count && Aligned(c, 2)
    requires Aligned(o + c, Log2(count)) && Aligned(c, j) && !Aligned(c, j + 1)
    ensures 2 <= j && Aligned(o, j) && Pow2(j) <= c
    ensures Aligned(c - Pow2(j), j + 1)
  {
    AlignedAtLeast(c, j);
    NotAligned(c, j, 2);
    var k := Log2(count);
    if j > k {
      Pow2Mono(k, j);
    }
    AlignedLess(o + c, j, k);
    AlignedSum(o + c, c, j);
  }

  // The split point between a right-justified and a left-justified part: offsets move
  // up by the largest power of two below what is left until they pass the start.
  method SplitPoint(s: nat, e: nat) returns (offset: nat, ghost k: nat)
    requires 0 < s < e <= 0x8000 && Aligned(s, 2) && Aligned(e, 2)
    ensures s <= offset < e && Passed(s, e, offset, k)
  {
    offset, k := 0, 0;
    AlignedZero(2);
    var again := true;
    while again
      invariant if again then Approaching(s, e, offset, k) else Passed(s, e, offset, k)
      decreases again, s - offset
    {
      offset, again, k := SplitTurn(s, e, offset, k);
    }
  }

  // One turn: up by half the rounded-up rest, and again while the start is further up.
  method SplitTurn(s: nat, e: nat, offset: nat, ghost k: nat) returns (next: nat, again: bool, ghost l: nat)
    requires Approaching(s, e, offset, k) && s < e <= 0x8000 && Aligned(s, 2) && Aligned(e, 2)
    ensures offset < next
    ensures if again then Approaching(s, e, next, l) else Passed(s, e, next, l)
  {
    var po2 := RoundUpToPo2(e - offset);
    var half := po2 / 2;
    l := SplitStep(s, e, offset, k);
    assert half == Pow2(l) > 0;
    next := offset + half;
    again := half < s - next + half;
  }

  ghost predicate Approaching(s: nat, e: nat, offset: nat, k: nat) {
    && offset < s && Aligned(offset, 2)
    && (offset == 0 || (Aligned(offset, k) && e - offset <= Pow2(k)))
  }

  ghost predicate Passed(s: nat, e: nat, offset: nat, k: nat) {
    && s <= offset < e && Aligned(offset, k)
    && offset - s < Pow2(k) && e - offset <= Pow2(k) && k >= 2
  }

  lemma SplitStep(s: nat, e: nat, offset: nat, k: nat) returns (l: nat)
    requires Approaching(s, e, offset, k) && s < e && Aligned(s, 2) && Aligned(e, 2)
    ensures e - offset >= 8 && PowerNotBelow(e - offset) / 2 == Pow2(l)
    ensures if offset + Pow2(l) < s then Approaching(s, e, offset + Pow2(l), l)
            else Passed(s, e, offset + Pow2(l), l)
  {
    FarApart(offset, s);
    FarApart(s, e);
    HalfPower(e - offset);
    l := Log2(e - offset - 1);
    assert l >= 2 by {
      assert Pow2(0) == 1 && Pow2(1) == 2;
    }
    OffsetAligned(e, offset, k, l);
    AlignedPower(l, l);
    AlignedSum(offset, Pow2(l), l);
    AlignedLess(offset + Pow2(l), 2, l);
  }

  lemma FarApart(a: nat, b: nat)
    requires a < b && Aligned(a, 2) && Aligned(b, 2)
    ensures b - a >= 4
  {
    AlignedSum(b, a, 2);
    AlignedAtLeast(b - a, 2);
    assert Pow2(2) == 4;
  }

  lemma OffsetAligned(e: nat, offset: nat, k: nat, l: nat)
    requires Pow2(l) < e - offset
    requires offset == 0 || (Aligned(offset, k) && e - offset <= Pow2(k))
    ensures Aligned(offset, l)
  {
    if offset == 0 {
      AlignedZero(l);
    } else {
      assert l < k by {
        if k <= l {
          Pow2Mono(k, l);
        }
      }
      AlignedLess(offset, l, k);
    }
  }

  lemma {:induction false} AlignedZero(k: nat)
    ensures Aligned(0, k)
  {
    if k > 0 {
      AlignedZero(k - 1);
    }
  }

  lemma FrameOf(addr: nat, count: nat)
    requires addr % 4 == 0 && count % 4 == 0
    ensures Aligned(addr - addr % 32, 5) && Aligned(addr % 32, 2) && Aligned(count, 2)
    ensures Aligned(addr % 32 + count, 2)
  {
    assert Pow2(2) == 4;
    Frame(addr - addr % 32);
    ModPow2(addr % 32, 2);
    ModPow2(count, 2);
    AlignedSum(addr % 32, count, 2);
  }

  // Every DWORD-aligned access is split into accesses the bridge takes, which cover it
  // exactly and in order - for every size the 16-bit arithmetic can round up.
  method HprxmAccess(addr: nat, count: nat) returns (log: seq<Access>)
    requires addr % 4 == 0 && count % 4 == 0 && addr % 32 + count <= 0x8000
    ensures Tiles(log, addr, addr + count) && AllGood(log, count)
    ensures Shaped(log, addr, addr % 32, count)
  {
    FrameOf(addr, count);
    log := SplitAccess(addr, count, addr % 32, addr - addr % 32);
  }

  // Which sizes in which order: with an aligned start the largest power first, with an
  // aligned end the smallest, and otherwise up to the split point and down from it.
  ghost predicate Shaped(log: seq<Access>, addr: nat, start: nat, count: nat) {
    if count == 0 then log == []
    else if Aligned(start, Log2(count)) then Descending(log)
    else if Aligned(start + count, Log2(count)) then Ascending(log)
    else exists offset: nat, l: nat, i: nat :: UpAndDown(log, addr, start, count, offset, l, i)
  }

  ghost predicate UpAndDown(log: seq<Access>, addr: nat, start: nat, count: nat, offset: nat, l: nat, i: nat) {
    && Passed(start, start + count, offset, l) && i <= |log|
    && Tiles(log[..i], addr, addr + (offset - start)) && Ascending(log[..i])
    && Tiles(log[i..], addr + (offset - start), addr + count) && Descending(log[i..])
  }

  method SplitAccess(addr: nat, count: nat, start: nat, ghost base: nat) returns (log: seq<Access>)
    requires addr == base + start && start + count <= 0x8000
    requires Aligned(base, 5) && Aligned(start, 2) && Aligned(count, 2) && Aligned(start + count, 2)
    ensures Tiles(log, addr, addr + count) && AllGood(log, count) && Shaped(log, addr, start, count)
  {
    var end := start + count;
    var mask := RoundDownToPo2Mask(count);
    ghost var k := if count == 0 then 0 else Log2(count);
    AndMask(start, k);
    AndMask(end, k);
    AlignedZero(k);
    if And(start, mask) == 0 {
      log := AccessLeftJustified(addr, count, base, start);
    } else if And(end, mask) == 0 {
      log := AccessRightJustified(addr, count, base, start);
    } else {
      ghost var offset, l, i;
      log, offset, l, i := AccessInTwo(addr, count, start, base);
    }
  }

  method AccessInTwo(addr: nat, count: nat, start: nat, ghost base: nat)
      returns (log: seq<Access>, ghost split: nat, ghost l: nat, ghost i: nat)
    requires addr == base + start && 0 < start && 0 < count && start + count <= 0x8000
    requires Aligned(base, 5) && Aligned(start, 2) && Aligned(start + count, 2)
    ensures Tiles(log, addr, addr + count) && AllGood(log, count)
    ensures UpAndDown(log, addr, start, count, split, l, i)
  {
    var offset;
    offset, l := SplitOffset(start, start + count);
    var diff := offset - start;
    var right := AccessRightJustified(addr, diff, base, start);
    var left := AccessLeftJustified(addr + diff, count - diff, base, offset);
    JoinParts(right, left, addr, diff, count, start, offset, l);
    log := right + left;
    split, i := offset, |right|;
  }

  lemma JoinShape(right: seq<Access>, left: seq<Access>, addr: nat, start: nat, count: nat, offset: nat, l: nat)
    requires Passed(start, start + count, offset, l)
    requires Tiles(right, addr, addr + (offset - start)) && Ascending(right)
    requires Tiles(left, addr + (offset - start), addr + count) && Descending(left)
    ensures UpAndDown(right + left, addr, start, count, offset, l, |right|)
  {
    assert (right + left)[..|right|] == right && (right + left)[|right|..] == left;
  }

  // The split point is aligned for the part before it and for the part after it.
  method SplitOffset(start: nat, end: nat) returns (offset: nat, ghost l: nat)
    requires 0 < start < end <= 0x8000 && Aligned(start, 2) && Aligned(end, 2)
    ensures start <= offset < end && Aligned(offset - start, 2) && Aligned(end - offset, 2)
    ensures offset > start ==> Aligned(offset, Log2(offset - start))
    ensures Aligned(offset, Log2(end - offset)) && Passed(start, end, offset, l)
  {
    offset, l := SplitPoint(start, end);
    SplitParts(start, end, offset, l);
  }

  lemma JoinParts(right: seq<Access>, left: seq<Access>, addr: nat, diff: nat, count: nat,
                  start: nat, offset: nat, l: nat)
    requires Passed(start, start + count, offset, l) && diff == offset - start
    requires Tiles(right, addr, addr + diff) && AllGood(right, diff) && Ascending(right)
    requires Tiles(left, addr + diff, addr + count) && AllGood(left, count - diff) && Descending(left)
    ensures Tiles(right + left, addr, addr + count) && AllGood(right + left, count)
    ensures UpAndDown(right + left, addr, start, count, offset, l, |right|)
  {
    JoinShape(right, left, addr, start, count, offset, l);
    TilesConcat(right, left, addr, addr + diff, addr + count);
    GoodConcat(right, diff, left, count - diff);
  }

  lemma GoodConcat(a: seq<Access>, m: nat, b: seq<Access>, n: nat)
    requires AllGood(a, m) && AllGood(b, n)
    ensures AllGood(a + b, m + n)
  {
  }

  lemma SplitParts(start: nat, end: nat, offset: nat, l: nat)
    requires Passed(start, end, offset, l) && Aligned(start, 2) && Aligned(end, 2)
    ensures Aligned(offset - start, 2) && Aligned(end - offset, 2)
    ensures offset > start ==> Aligned(offset, Log2(offset - start))
    ensures Aligned(offset, Log2(end - offset))
  {
    AlignedLess(offset, 2, l);
    AlignedSum(offset, start, 2);
    AlignedSum(end, offset, 2);
    if offset > start {
      AlignedLog(offset, offset - start, l);
    }
    AlignedLog(offset, end - offset, l);
  }

  lemma AlignedLog(offset: nat, n: nat, l: nat)
    requires Aligned(offset, l) && 0 < n <= Pow2(l)
    ensures Aligned(offset, Log2(n))
  {
    if Log2(n) > l {
      Pow2Mono(l, Log2(n));
    }
    AlignedLess(offset, Log2(n), l);
  }

  // What round_up_to_po2 gives in 16 bits.
  function RoundedUp(n: nat): nat { if 0 < n <= 0x8000 then PowerNotBelow(n) else 0 }

  lemma MaskBits(count: nat)
    requires 0x8000 - 32 < count < U16
    ensures Log2(count) == if count < 0x8000 then 14 else 15
  {
    Pow2Values();
    LogUnique(count, if count < 0x8000 then 14 else 15);
  }

  // The search for the split point cannot get past the start s: the end is so far that
  // its rounding gives 0, or it wrapped in 16 bits and does not lie beyond the start.
  ghost predicate Stuck(s: nat, e: nat, offset: nat) {
    (offset == 0 < s && 0x8000 < e) || offset < e <= s
  }

  // A turn of the search leaves it stuck, and goes round again.
  lemma StuckStays(s: nat, e: nat, offset: nat)
    requires Stuck(s, e, offset)
    ensures var half := RoundedUp(e - offset) / 2;
            Stuck(s, e, offset + half) && half < s - (offset + half) + half
  {
    if e <= 0x8000 && e - offset >= 2 {
      HalfPower(e - offset);
    } else if e <= 0x8000 {
      assert e - offset == 1 && Log2(1) == 0 && Pow2(0) == 1;
    }
  }

  // What is left of a right-justified access after j turns, while its power still fits.
  ghost function RightRest(count: nat, j: nat): int {
    if j == 0 then count
    else
      var c := RightRest(count, j - 1);
      if c % Pow2(j) != 0 then c - Pow2(j - 1) else c
  }

  // A count of 2^15 or more is never used up: in the turn after the fifteenth the power,
  // doubled in 16 bits, is 0, and the code divides by it.
  lemma {:induction false} RightRestLarge(count: nat, j: nat)
    requires 0x8000 <= count && j <= 15
    ensures RightRest(count, j) >= 0x8000 && Aligned(RightRest(count, j), j)
  {
    if j > 0 {
      RightRestLarge(count, j - 1);
      var c := RightRest(count, j - 1);
      ModPow2(c, j);
      if !Aligned(c, j) {
        Pow2Values();
        AlignedPower(15, j);
        AlignedPower(15, j - 1);
        AlignedSum(c, 0x8000, j - 1);
        AlignedAtLeast(c - 0x8000, j - 1);
        AlignedAtLeast(c, j - 1);
      }
    }
  }

  // Beyond that size no access is ever completed. With an aligned start the first power is
  // 0, and the inner loop takes 0 off the count for ever; with an aligned end, which has
  // then wrapped to 0, the code divides by 0; otherwise the search for the split point
  // never ends.
  lemma TooLongNeverCompletes(start: nat, count: nat)
    requires start < 32 && count < U16 && 0x8000 < start + count
    ensures count > 0
    ensures var mask, end := Pow2(Log2(count)) - 1, (start + count) % U16;
            if And(start, mask) == 0 then RoundedUp(count) == 0
            else if And(end, mask) == 0 then count >= 0x8000 && RightRest(count, 15) > 0 && (2 * Pow2(15)) % U16 == 0
            else Stuck(start, end, 0)
  {
    MaskBits(count);
    Pow2Values();
    var k, end := Log2(count), (start + count) % U16;
    AndMask(start, k);
    AndMask(end, k);
    if start == 0 {
      AlignedZero(k);
    } else {
      NotAlignedBelow(start, k);
      if start + count < U16 {
        FarEndNotAligned(end, k);
      } else if end == 0 {
        AlignedZero(k);
        RightRestLarge(count, 15);
      } else {
        NotAlignedBelow(end, k);
      }
    }
  }

  lemma FarEndNotAligned(end: nat, k: nat)
    requires 0x8000 < end < 0x8000 + Pow2(k) && k <= 15
    ensures !Aligned(end, k)
  {
    NotAlignedBelow(end - 0x8000, k);
    if Aligned(end, k) {
      Pow2Values();
      AlignedPower(15, k);
      AlignedSum(end, 0x8000, k);
    }
  }

  lemma NotAlignedBelow(x: nat, k: nat)
    requires 0 < x < Pow2(k)
    ensures !Aligned(x, k)
  {
    if Aligned(x, k) {
      AlignedAtLeast(x, k);
    }
  }

  // A request of at most 64 bytes, the most the driver takes at once, uses only the
  // sizes for which the hardware access is implemented.
  lemma SizesImplemented(log: seq<Access>, i: nat)
    requires AllGood(log, 64) && i < |log|
    ensures log[i].size == 4 || log[i].size == 8 || log[i].size == 16 || log[i].size == 32 || log[i].size == 64
  {
    assert Good(log[i]);
    var k: nat :| GoodFor(log[i], k);
    Pow2Values();
    assert Pow2(7) == 128;
    assert k < 7 by {
      if 7 <= k {
        Pow2Mono(7, k);
      }
    }
    assert Pow2(3) == 8 && Pow2(4) == 16;
    assert k == 2 || k == 3 || k == 4 || k == 5 || k == 6;
  }
}
