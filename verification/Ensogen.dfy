// EnsoGen: packs the packets of a capture into transfer buffers in memory, works out how
// many bytes the requested number of packets takes by walking that memory, and sends
// buffer after buffer, round and round, until those bytes are gone.
module Ensogen {
  import opened Consts
  import opened Segmentation
  import opened Seqs
  import opened ModArith
  import opened Packets
  import P = TxProtocol
  import opened TxQueue

  const BUFFER_SIZE: nat := MAX_TRANSFER_LEN
  const TX_RECLAIM_DELAY: nat := 1024
  const FILL_THRESHOLD: nat := NOTIFICATION_BUF_SIZE - 2

  // Huge-page memory, page after page.
  type Mem = seq<Byte>

  // Memory as the packet functions read it.
  function View(mem: Mem): Memory { (a: nat) => if a < |mem| then mem[a] else 0 }

  // A packet as captured: as long as its IP header says, which lies within it.
  type Packet = p: seq<Byte> | 18 <= |p| < U16 && PktLen(View(p), 0) == |p| witness SmallPacket()

  function SmallPacket(): seq<Byte> {
    [0, 0, 0, 0, 0, 0, 0, 0, 0, 0, 0, 0, 8, 0, 0, 0, 0, 4]
  }

  predicate IsIpv4(p: Packet) { p[12] == 0x08 && p[13] == 0x00 }

  ghost predicate AllIpv4(ps: seq<Packet>) {
    forall i :: 0 <= i < |ps| ==> IsIpv4(ps[i])
  }

  lemma Ipv4Push(ps: seq<Packet>, p: Packet)
    requires AllIpv4(ps) && IsIpv4(p)
    ensures AllIpv4(ps + [p])
  {
  }

  function Zeros(n: nat): (r: Mem)
    ensures |r| == n && forall i :: 0 <= i < n ==> r[i] == 0
  {
    seq(n, _ => 0)
  }

  function PaddedSize(p: Packet): (n: nat)
    ensures |p| <= n < |p| + FLIT && 0 < n <= U16 && n == NbFlits(|p|) * FLIT
  {
    FlitsCover(|p|);
    NbFlits(|p|) * FLIT
  }

  // The packet padded to whole flits.
  function Padded(p: Packet): (r: Mem)
    ensures |r| == PaddedSize(p) && p <= r
  {
    p + Zeros(PaddedSize(p) - |p|)
  }

  function Bytes(ps: seq<Packet>): Mem {
    if ps == [] then [] else Bytes(ps[..|ps| - 1]) + Padded(ps[|ps| - 1])
  }

  // A transfer buffer: where it lies, how many of its bytes are used, how many packets
  // they hold.
  datatype Buffer = Buffer(addr: nat, length: nat, nbPkts: nat)

  function AllPkts(cs: seq<seq<Packet>>): seq<Packet> {
    if cs == [] then [] else AllPkts(cs[..|cs| - 1]) + cs[|cs| - 1]
  }

  lemma {:induction false} BytesAppend(a: seq<Packet>, b: seq<Packet>)
    ensures Bytes(a + b) == Bytes(a) + Bytes(b)
    decreases |b|
  {
    if b == [] {
      assert a + b == a;
    } else {
      var front, last := b[..|b| - 1], b[|b| - 1];
      BytesAppend(a, front);
      assert (a + b)[..|a + b| - 1] == a + front;
      Associate(Bytes(a), Bytes(front), Padded(last));
    }
  }

  lemma BytesPush(ps: seq<Packet>, p: Packet)
    ensures Bytes(ps + [p]) == Bytes(ps) + Padded(p)
  {
    assert (ps + [p])[..|ps|] == ps;
  }

  lemma {:induction false} AllPktsAppend(a: seq<seq<Packet>>, b: seq<seq<Packet>>)
    ensures AllPkts(a + b) == AllPkts(a) + AllPkts(b)
    decreases |b|
  {
    if b == [] {
      assert a + b == a;
    } else {
      var front, last := b[..|b| - 1], b[|b| - 1];
      AllPktsAppend(a, front);
      assert (a + b)[..|a + b| - 1] == a + front;
      Associate(AllPkts(a), AllPkts(front), last);
    }
  }

  lemma AllPktsPush(front: seq<seq<Packet>>, c: seq<Packet>)
    ensures AllPkts(front + [c]) == AllPkts(front) + c
  {
    assert (front + [c])[..|front|] == front;
  }

  // Repetition.

  function Repeat<T>(s: seq<T>, k: nat): (r: seq<T>) {
    if k == 0 then [] else Repeat(s, k - 1) + s
  }

  lemma {:induction false} RepeatAdd<T>(s: seq<T>, a: nat, b: nat)
    ensures Repeat(s, a + b) == Repeat(s, a) + Repeat(s, b)
    decreases b
  {
    if b > 0 {
      RepeatAdd(s, a, b - 1);
    }
  }

  lemma {:induction false} RepeatOfRepeat<T>(s: seq<T>, r: nat, k: nat) returns (m: nat)
    ensures Repeat(Repeat(s, r), k) == Repeat(s, m)
    decreases k
  {
    if k == 0 {
      m := 0;
    } else {
      m := RepeatOfRepeat(s, r, k - 1);
      RepeatAdd(s, m, r);
      m := m + r;
    }
  }

  lemma {:induction false} BytesOfRepeat(ps: seq<Packet>, k: nat)
    ensures Bytes(Repeat(ps, k)) == Repeat(Bytes(ps), k)
    decreases k
  {
    if k > 0 {
      BytesOfRepeat(ps, k - 1);
      BytesAppend(Repeat(ps, k - 1), ps);
    }
  }

  // A beginning of the endless repetition of s.
  ghost predicate IsCyclic<T(!new)>(x: seq<T>, s: seq<T>) {
    exists k: nat :: x <= Repeat(s, k)
  }

  // Two beginnings of the same length are the same.
  lemma CyclicUnique<T(!new)>(x: seq<T>, y: seq<T>, s: seq<T>)
    requires IsCyclic(x, s) && IsCyclic(y, s) && |x| == |y|
    ensures x == y
  {
    var a: nat :| x <= Repeat(s, a);
    var b: nat :| y <= Repeat(s, b);
    RepeatAdd(s, a, b);
    RepeatAdd(s, b, a);
    var all := Repeat(s, a + b);
    assert x <= all && y <= all;
  }

  // Repeating a repetition repeats the original.
  lemma CyclicOfRepeat<T(!new)>(x: seq<T>, s: seq<T>, r: nat)
    requires IsCyclic(x, Repeat(s, r))
    ensures IsCyclic(x, s)
  {
    var k: nat :| x <= Repeat(Repeat(s, r), k);
    var m := RepeatOfRepeat(s, r, k);
    assert x <= Repeat(s, m);
  }

  // The first n packets of the endless repetition of ps.
  function CyclicTake(ps: seq<Packet>, n: nat): (r: seq<Packet>)
    requires ps != []
  {
    Repeat(ps, n / |ps|) + ps[..n % |ps|]
  }

  lemma {:induction false} RepeatLength<T>(s: seq<T>, k: nat)
    ensures |Repeat(s, k)| == k * |s|
    decreases k
  {
    if k > 0 {
      RepeatLength(s, k - 1);
    }
  }

  lemma CyclicTakeIsCyclic(ps: seq<Packet>, n: nat)
    requires ps != []
    ensures |CyclicTake(ps, n)| == n && IsCyclic(CyclicTake(ps, n), ps)
  {
    var k := n / |ps|;
    RepeatLength(ps, k);
    assert n == |ps| * k + n % |ps|;
    assert Repeat(ps, k + 1) == Repeat(ps, k) + ps;
    assert CyclicTake(ps, n) <= Repeat(ps, k + 1);
  }

  lemma PrefixBytes(x: seq<Packet>, y: seq<Packet>)
    requires x <= y
    ensures Bytes(x) <= Bytes(y)
  {
    assert y == x + y[|x|..];
    BytesAppend(x, y[|x|..]);
  }

  lemma CyclicBytes(x: seq<Packet>, ps: seq<Packet>)
    requires IsCyclic(x, ps)
    ensures IsCyclic(Bytes(x), Bytes(ps))
  {
    var k: nat :| x <= Repeat(ps, k);
    PrefixBytes(x, Repeat(ps, k));
    BytesOfRepeat(ps, k);
  }

  // Memory.

  function Overwrite(mem: Mem, at: nat, data: Mem): (r: Mem)
    requires at + |data| <= |mem|
    ensures |r| == |mem|
  {
    mem[..at] + data + mem[at + |data|..]
  }

  // memcpy, byte by byte.
  method CopyTo(mem: Mem, at: nat, data: Mem) returns (r: Mem)
    requires at + |data| <= |mem|
    ensures r == Overwrite(mem, at, data)
  {
    r := mem;
    for i := 0 to |data|
      invariant r == Overwrite(mem, at, data[..i])
    {
      r := r[at + i := data[i]];
      assert data[..i + 1] == data[..i] + [data[i]];
    }
    assert data[..|data|] == data;
  }

  ghost predicate ZeroFrom(mem: Mem, from: nat) {
    forall i :: from <= i < |mem| ==> mem[i] == 0
  }

  // The used bytes of the buffer hold the packets, padded, back to back.
  ghost predicate Holds(mem: Mem, b: Buffer, pkts: seq<Packet>) {
    && b.addr + b.length <= |mem|
    && mem[b.addr..b.addr + b.length] == Bytes(pkts)
    && b.nbPkts == |pkts|
  }

  ghost predicate GoodBuffer(b: Buffer) {
    b.length <= BUFFER_SIZE && b.addr % BUFFER_SIZE == 0
  }

  // One buffer after the other, without gap or overlap, page after page.
  ghost predicate InOrder(bs: seq<Buffer>) {
    forall i :: 0 <= i < |bs| ==> bs[i].addr == i * BUFFER_SIZE
  }

  // The buffers hold the packets `cs`, buffer by buffer.
  ghost predicate Stored(mem: Mem, bs: seq<Buffer>, cs: seq<seq<Packet>>) {
    && |bs| == |cs| && InOrder(bs)
    && forall i :: 0 <= i < |bs| ==> GoodBuffer(bs[i]) && Holds(mem, bs[i], cs[i])
  }

  ghost predicate NoneEmpty(cs: seq<seq<Packet>>) {
    forall i :: 0 <= i < |cs| ==> cs[i] != []
  }

  lemma NonEmptyBytes(ps: seq<Packet>)
    requires ps != []
    ensures |Bytes(ps)| > 0
  {
  }

  lemma SliceBelow(mem: Mem, at: nat, data: Mem, from: nat, to: nat)
    requires at + |data| <= |mem| && from <= to <= at
    ensures Overwrite(mem, at, data)[from..to] == mem[from..to]
  {
  }

  lemma SliceAcross(mem: Mem, at: nat, data: Mem, from: nat, end: nat)
    requires from <= at && at + |data| <= end <= |mem|
    ensures Overwrite(mem, at, data)[from..end] == mem[from..at] + data + mem[at + |data|..end]
  {
  }

  // Packing.

  // The last buffer still takes `free` flits, and no byte behind it has been written.
  ghost predicate Room(mem: Mem, bs: seq<Buffer>, free: nat) {
    && bs != []
    && free * FLIT + bs[|bs| - 1].length == BUFFER_SIZE
    && bs[|bs| - 1].addr + BUFFER_SIZE <= |mem|
    && ZeroFrom(mem, bs[|bs| - 1].addr + bs[|bs| - 1].length)
  }

  function Dest(bs: seq<Buffer>): nat
    requires bs != []
  {
    bs[|bs| - 1].addr + bs[|bs| - 1].length
  }

  // The last buffer with a packet more.
  function Grown(b: Buffer, p: Packet): Buffer {
    Buffer(b.addr, b.length + PaddedSize(p), b.nbPkts + 1)
  }

  lemma HoldsMore(mem: Mem, b: Buffer, pkts: seq<Packet>, p: Packet)
    requires Holds(mem, b, pkts) && b.addr + b.length + PaddedSize(p) <= |mem| && ZeroFrom(mem, b.addr + b.length)
    ensures Holds(Overwrite(mem, b.addr + b.length, p), Grown(b, p), pkts + [p])
  {
    var at := b.addr + b.length;
    BytesPush(pkts, p);
    SliceAcross(mem, at, p, b.addr, at + PaddedSize(p));
    assert mem[at + |p|..at + PaddedSize(p)] == Zeros(PaddedSize(p) - |p|);
    Associate(Bytes(pkts), p, Zeros(PaddedSize(p) - |p|));
  }

  lemma HoldsStill(mem: Mem, at: nat, data: Mem, b: Buffer, pkts: seq<Packet>)
    requires Holds(mem, b, pkts) && at + |data| <= |mem| && b.addr + b.length <= at
    ensures Holds(Overwrite(mem, at, data), b, pkts)
  {
    SliceBelow(mem, at, data, b.addr, b.addr + b.length);
  }

  // The padded packet fits behind the others in the last buffer.
  ghost predicate Fits(mem: Mem, bs: seq<Buffer>, p: Packet) {
    && bs != []
    && bs[|bs| - 1].length + PaddedSize(p) <= BUFFER_SIZE
    && Dest(bs) + PaddedSize(p) <= |mem|
    && ZeroFrom(mem, Dest(bs))
  }

  lemma RoomFits(mem: Mem, bs: seq<Buffer>, free: nat, p: Packet)
    requires Room(mem, bs, free) && NbFlits(|p|) <= free
    ensures Fits(mem, bs, p)
  {
  }

  function PutBuffers(bs: seq<Buffer>, p: Packet): seq<Buffer>
    requires bs != []
  {
    bs[|bs| - 1 := Grown(bs[|bs| - 1], p)]
  }

  function PutContents(cs: seq<seq<Packet>>, p: Packet): seq<seq<Packet>>
    requires cs != []
  {
    cs[|cs| - 1 := cs[|cs| - 1] + [p]]
  }

  // Copying a packet that fits.
  lemma PutStores(mem: Mem, bs: seq<Buffer>, cs: seq<seq<Packet>>, p: Packet)
    requires Stored(mem, bs, cs) && Fits(mem, bs, p)
    ensures Stored(Overwrite(mem, Dest(bs), p), PutBuffers(bs, p), PutContents(cs, p))
  {
    var mem', bs', cs' := Overwrite(mem, Dest(bs), p), PutBuffers(bs, p), PutContents(cs, p);
    forall i | 0 <= i < |bs'| ensures GoodBuffer(bs'[i]) && Holds(mem', bs'[i], cs'[i]) {
      PutStoresOne(mem, bs, cs, p, i);
    }
    PutInOrder(bs, p);
  }

  lemma PutStoresOne(mem: Mem, bs: seq<Buffer>, cs: seq<seq<Packet>>, p: Packet, i: nat)
    requires Stored(mem, bs, cs) && Fits(mem, bs, p) && i < |bs|
    ensures GoodBuffer(PutBuffers(bs, p)[i])
    ensures Holds(Overwrite(mem, Dest(bs), p), PutBuffers(bs, p)[i], PutContents(cs, p)[i])
  {
    assert GoodBuffer(bs[i]) && Holds(mem, bs[i], cs[i]);
    if i == |bs| - 1 {
      HoldsMore(mem, bs[i], cs[i], p);
    } else {
      assert bs[i].addr + BUFFER_SIZE <= bs[|bs| - 1].addr;
      HoldsStill(mem, Dest(bs), p, bs[i], cs[i]);
    }
  }

  lemma PutInOrder(bs: seq<Buffer>, p: Packet)
    requires InOrder(bs) && bs != []
    ensures InOrder(PutBuffers(bs, p))
  {
    var bs' := PutBuffers(bs, p);
    forall i | 0 <= i < |bs'| ensures bs'[i].addr == i * BUFFER_SIZE {
      assert bs'[i].addr == bs[i].addr;
    }
  }

  lemma PutLeavesRoom(mem: Mem, bs: seq<Buffer>, free: nat, p: Packet)
    requires Room(mem, bs, free) && NbFlits(|p|) <= free && Fits(mem, bs, p)
    ensures Room(Overwrite(mem, Dest(bs), p), PutBuffers(bs, p), free - NbFlits(|p|))
  {
  }

  lemma PutAppends(cs: seq<seq<Packet>>, p: Packet)
    requires cs != []
    ensures AllPkts(PutContents(cs, p)) == AllPkts(cs) + [p]
  {
    var front, last := cs[..|cs| - 1], cs[|cs| - 1];
    assert cs == front + [last];
    assert PutContents(cs, p) == front + [last + [p]];
    AllPktsPush(front, last);
    AllPktsPush(front, last + [p]);
    Associate(AllPkts(front), last, [p]);
  }

  lemma GrownMemory(mem: Mem, bs: seq<Buffer>, cs: seq<seq<Packet>>, n: nat)
    requires Stored(mem, bs, cs)
    ensures Stored(mem + Zeros(n), bs, cs)
  {
    forall i | 0 <= i < |bs| ensures Holds(mem + Zeros(n), bs[i], cs[i]) {
      assert Holds(mem, bs[i], cs[i]);
      assert (mem + Zeros(n))[bs[i].addr..bs[i].addr + bs[i].length] == mem[bs[i].addr..bs[i].addr + bs[i].length];
    }
  }

  lemma NewBufferStored(mem: Mem, bs: seq<Buffer>, cs: seq<seq<Packet>>, addr: nat)
    requires Stored(mem, bs, cs) && addr == |bs| * BUFFER_SIZE <= |mem|
    ensures Stored(mem, bs + [Buffer(addr, 0, 0)], cs + [[]]) && AllPkts(cs + [[]]) == AllPkts(cs)
  {
    AllPktsPush(cs, []);
    assert mem[addr..addr + 0] == Bytes([]);
    assert GoodBuffer(Buffer(addr, 0, 0)) && Holds(mem, Buffer(addr, 0, 0), []);
  }

  lemma PageMore(a: nat)
    requires a % BUFFER_SIZE == 0
    ensures (a + BUF_PAGE_SIZE) % BUFFER_SIZE == 0
  {
    assert BUF_PAGE_SIZE == 16 * BUFFER_SIZE;
  }

  // A page holds a whole number of buffers.
  lemma PageUsedUp(offset: nat)
    requires offset % BUFFER_SIZE == 0 && offset <= BUF_PAGE_SIZE
    ensures offset + BUFFER_SIZE > BUF_PAGE_SIZE ==> offset == BUF_PAGE_SIZE
    ensures (offset + BUFFER_SIZE) % BUFFER_SIZE == 0
  {
    var k := offset / BUFFER_SIZE;
    assert offset == BUFFER_SIZE * k && BUF_PAGE_SIZE == BUFFER_SIZE * 16;
  }

  lemma LastAddr(bs: seq<Buffer>)
    requires InOrder(bs)
    ensures bs != [] ==> bs[|bs| - 1].addr + BUFFER_SIZE == |bs| * BUFFER_SIZE
  {
  }

  // A buffer is closed only when the packet that the next one begins with does not fit.
  ghost predicate Closed(b: Buffer, next: seq<Packet>) {
    next != [] && b.length + PaddedSize(next[0]) > BUFFER_SIZE
  }

  ghost predicate Tight(bs: seq<Buffer>, cs: seq<seq<Packet>>) {
    |bs| == |cs| && forall i {:trigger bs[i]} :: 0 <= i < |bs| - 1 ==> Closed(bs[i], cs[i + 1])
  }

  // The same when p comes next: it opens the last buffer if that is still empty.
  ghost predicate TightWith(bs: seq<Buffer>, cs: seq<seq<Packet>>, p: Packet) {
    |bs| == |cs| && forall i {:trigger bs[i]} :: 0 <= i < |bs| - 1 ==> Closed(bs[i], cs[i + 1] + [p])
  }

  lemma TightNext(bs: seq<Buffer>, cs: seq<seq<Packet>>, p: Packet)
    requires Tight(bs, cs)
    ensures TightWith(bs, cs, p)
  {
    forall i {:trigger bs[i]} | 0 <= i < |bs| - 1 ensures Closed(bs[i], cs[i + 1] + [p]) {
      assert Closed(bs[i], cs[i + 1]);
    }
  }

  lemma TightOpen(bs: seq<Buffer>, cs: seq<seq<Packet>>, b: Buffer, p: Packet)
    requires Tight(bs, cs) && (bs != [] ==> bs[|bs| - 1].length + PaddedSize(p) > BUFFER_SIZE)
    ensures TightWith(bs + [b], cs + [[]], p)
  {
    var bs', cs' := bs + [b], cs + [[]];
    forall i {:trigger bs'[i]} | 0 <= i < |bs'| - 1 ensures Closed(bs'[i], cs'[i + 1] + [p]) {
      assert bs'[i] == bs[i];
      if i + 1 < |bs| {
        assert Closed(bs[i], cs[i + 1]) && cs'[i + 1] == cs[i + 1];
      }
    }
  }

  lemma TightPut(bs: seq<Buffer>, cs: seq<seq<Packet>>, p: Packet)
    requires bs != [] && TightWith(bs, cs, p) && forall i :: 0 <= i < |cs| - 1 ==> cs[i] != []
    ensures Tight(PutBuffers(bs, p), PutContents(cs, p))
  {
    var bs', cs' := PutBuffers(bs, p), PutContents(cs, p);
    forall i {:trigger bs'[i]} | 0 <= i < |bs'| - 1 ensures Closed(bs'[i], cs'[i + 1]) {
      assert bs'[i] == bs[i] && Closed(bs[i], cs[i + 1] + [p]);
    }
  }

  class PcapHandlerContext {
    var memory: Mem
    var buffers: seq<Buffer>
    var freeFlits: nat
    var hugepageOffset: nat
    ghost var contents: seq<seq<Packet>>

    constructor ()
      ensures Valid() && buffers == [] && contents == []
    {
      memory, buffers, freeFlits, hugepageOffset, contents := [], [], 0, BUF_PAGE_SIZE, [];
    }

    // Every buffer holds its packets, none overflows, they lie one after the other, and a
    // new one was begun only when the next packet did not fit; the counters describe the
    // last one.
    ghost predicate Valid()
      reads this
    {
      && Stored(memory, buffers, contents) && NoneEmpty(contents) && Tight(buffers, contents) && PageValid()
      && (buffers == [] ==> freeFlits == 0)
      && (buffers != [] ==> Room(memory, buffers, freeFlits))
    }

    // The offset is where the last buffer ends in the last huge page.
    ghost predicate PageValid()
      reads this
    {
      && hugepageOffset % BUFFER_SIZE == 0 && hugepageOffset <= BUF_PAGE_SIZE
      && |memory| % BUFFER_SIZE == 0
      && (if buffers == [] then memory == [] && hugepageOffset == BUF_PAGE_SIZE
          else buffers[|buffers| - 1].addr + BUFFER_SIZE == |memory| - BUF_PAGE_SIZE + hugepageOffset)
    }

    // Where the next buffer goes: right after the last one, or in a new huge page, which
    // holds zeroes.
    method NextBufferAddr() returns (addr: nat)
      requires Valid()
      modifies this`hugepageOffset, this`memory
      ensures addr == |buffers| * BUFFER_SIZE && addr + BUFFER_SIZE == |memory| - BUF_PAGE_SIZE + hugepageOffset
      ensures hugepageOffset % BUFFER_SIZE == 0 && hugepageOffset <= BUF_PAGE_SIZE && |memory| % BUFFER_SIZE == 0
      ensures Stored(memory, buffers, contents) && ZeroFrom(memory, addr)
    {
      LastAddr(buffers);
      PageUsedUp(hugepageOffset);
      if hugepageOffset + BUFFER_SIZE > BUF_PAGE_SIZE {
        addr := |memory|;
        GetHugePage();
        hugepageOffset := BUFFER_SIZE;
      } else {
        addr := buffers[|buffers| - 1].addr + BUFFER_SIZE;
        hugepageOffset := hugepageOffset + BUFFER_SIZE;
      }
    }

    method GetHugePage()
      requires Stored(memory, buffers, contents) && |memory| % BUFFER_SIZE == 0
      modifies this`memory
      ensures Stored(memory, buffers, contents) && |memory| % BUFFER_SIZE == 0
      ensures |memory| == |old(memory)| + BUF_PAGE_SIZE && ZeroFrom(memory, |old(memory)|)
    {
      GrownMemory(memory, buffers, contents, BUF_PAGE_SIZE);
      PageMore(|memory|);
      memory := memory + Zeros(BUF_PAGE_SIZE);
    }

    // Opens a new buffer when the last one has no room.
    method EnsureRoom(nbFlits: nat, ghost p: Packet)
      requires Valid() && nbFlits == NbFlits(|p|)
      modifies this
      ensures Stored(memory, buffers, contents) && PageValid() && Room(memory, buffers, freeFlits)
      ensures nbFlits <= freeFlits && AllPkts(contents) == AllPkts(old(contents))
      ensures TightWith(buffers, contents, p) && forall i :: 0 <= i < |contents| - 1 ==> contents[i] != []
    {
      FlitsCover(|p|);
      if nbFlits > freeFlits {
        OpenBuffer(p);
      } else {
        TightNext(buffers, contents, p);
      }
    }

    method OpenBuffer(ghost p: Packet)
      requires Valid() && NbFlits(|p|) > freeFlits
      modifies this
      ensures TightWith(buffers, contents, p)
      ensures Stored(memory, buffers, contents) && PageValid() && Room(memory, buffers, freeFlits)
      ensures freeFlits == BUFFER_SIZE / FLIT && AllPkts(contents) == AllPkts(old(contents))
      ensures contents == old(contents) + [[]]
    {
      var addr := NextBufferAddr();
      NewBufferStored(memory, buffers, contents, addr);
      TightOpen(buffers, contents, Buffer(addr, 0, 0), p);
      buffers, contents := buffers + [Buffer(addr, 0, 0)], contents + [[]];
      freeFlits := BUFFER_SIZE / FLIT;
    }

    // Copies the packet behind the others; refuses what is not IPv4.
    method HandlePacket(p: Packet) returns (ok: bool)
      requires Valid()
      modifies this
      ensures Valid() && ok == IsIpv4(p)
      ensures AllPkts(contents) == AllPkts(old(contents)) + (if ok then [p] else [])
    {
      if p[12] != 0x08 || p[13] != 0x00 {
        return false;
      }
      FlitsCover(|p|);
      EnsureRoom(NbFlits(|p|), p);
      PutAppends(contents, p);
      TightPut(buffers, contents, p);
      CopyPacket(p);
      return true;
    }

    // pcap_loop
    method HandleAll(pcap: seq<Packet>) returns (ok: bool)
      requires Valid() && contents == []
      modifies this
      ensures Valid() && (ok ==> AllPkts(contents) == pcap)
      ensures ok <==> AllIpv4(pcap)
    {
      for i := 0 to |pcap|
        invariant Valid() && AllPkts(contents) == pcap[..i] && AllIpv4(pcap[..i])
      {
        ok := HandlePacket(pcap[i]);
        if !ok {
          return;
        }
        TakeMore(pcap, i);
        Ipv4Push(pcap[..i], pcap[i]);
      }
      TakeAll(pcap);
      ok := true;
    }

    method CopyPacket(p: Packet)
      requires Stored(memory, buffers, contents) && PageValid() && Room(memory, buffers, freeFlits)
      requires NbFlits(|p|) <= freeFlits
      modifies this
      ensures Stored(memory, buffers, contents) && PageValid() && Room(memory, buffers, freeFlits)
      ensures buffers == PutBuffers(old(buffers), p) && contents == PutContents(old(contents), p)
    {
      var mem, free := PutPacket(memory, buffers, freeFlits, p, contents);
      var bs := PutBuffers(buffers, p);
      assert bs[|bs| - 1].addr == buffers[|buffers| - 1].addr;
      memory, freeFlits, buffers, contents := mem, free, bs, PutContents(contents, p);
    }
  }

  // Copies a packet that fits behind the others in the last buffer.
  method PutPacket(mem0: Mem, bs: seq<Buffer>, free0: nat, p: Packet, ghost cs: seq<seq<Packet>>)
      returns (mem: Mem, free: nat)
    requires Stored(mem0, bs, cs) && Room(mem0, bs, free0) && NbFlits(|p|) <= free0
    ensures Stored(mem, PutBuffers(bs, p), PutContents(cs, p)) && Room(mem, PutBuffers(bs, p), free)
    ensures |mem| == |mem0|
  {
    RoomFits(mem0, bs, free0, p);
    PutStores(mem0, bs, cs, p);
    PutLeavesRoom(mem0, bs, free0, p);
    mem := CopyTo(mem0, Dest(bs), p);
    free := free0 - NbFlits(|p|);
  }

  // Packs a whole capture; stops at a packet that is not IPv4.
  method Pack(pcap: seq<Packet>) returns (ok: bool, mem: Mem, buffers: seq<Buffer>, ghost contents: seq<seq<Packet>>)
    ensures ok <==> AllIpv4(pcap)
    ensures Stored(mem, buffers, contents) && NoneEmpty(contents) && (ok ==> AllPkts(contents) == pcap)
    ensures Tight(buffers, contents) && Roomy(mem, buffers)
  {
    var context := new PcapHandlerContext();
    ok := context.HandleAll(pcap);
    mem, buffers, contents := context.memory, context.buffers, context.contents;
  }

  // All of the last buffer is memory, used or not.
  ghost predicate Roomy(mem: Mem, bs: seq<Buffer>) {
    bs != [] ==> bs[|bs| - 1].addr + BUFFER_SIZE <= |mem|
  }

  // How often the packets are in memory once a small capture has been copied over the
  // rest of its only buffer: as often as they fit.
  function Copies(bs: seq<Buffer>): nat {
    if |bs| == 1 && 0 < bs[0].length < BUFFER_SIZE / 2 then BUFFER_SIZE / bs[0].length else 1
  }

  ghost function Replicated(bs: seq<Buffer>, cs: seq<seq<Packet>>): seq<seq<Packet>> {
    if |cs| == 1 then [Repeat(cs[0], Copies(bs))] else cs
  }

  method Replicate(mem0: Mem, bs: seq<Buffer>, ghost cs: seq<seq<Packet>>) returns (mem: Mem, result: seq<Buffer>)
    requires Stored(mem0, bs, cs) && NoneEmpty(cs) && Roomy(mem0, bs)
    ensures Stored(mem, result, Replicated(bs, cs))
    ensures |bs| == 1 && bs[0].length < BUFFER_SIZE / 2 ==>
              |result| == 1 && result[0].length + bs[0].length > BUFFER_SIZE
    ensures !(|bs| == 1 && bs[0].length < BUFFER_SIZE / 2) ==> mem == mem0 && result == bs
  {
    mem, result := mem0, bs;
    if |bs| == 1 {
      RepeatOnce(cs[0]);
      assert cs == [cs[0]];
    }
    if |bs| == 1 && bs[0].length < BUFFER_SIZE / 2 {
      assert Holds(mem0, bs[0], cs[0]) && GoodBuffer(bs[0]);
      NonEmptyBytes(cs[0]);
      var b;
      mem, b := FillBuffer(mem0, bs[0], cs[0]);
      result := [b];
    }
  }

  // What the buffers hold afterwards is a whole number of copies of the capture.
  lemma ReplicatedRepeats(mem: Mem, bs: seq<Buffer>, cs: seq<seq<Packet>>)
    requires Stored(mem, bs, cs) && NoneEmpty(cs)
    ensures Copies(bs) >= 1 && NoneEmpty(Replicated(bs, cs))
    ensures AllPkts(Replicated(bs, cs)) == Repeat(AllPkts(cs), Copies(bs))
  {
    if |cs| == 1 {
      OneContent(cs);
      OneContent(Replicated(bs, cs));
      if Copies(bs) != 1 {
        AtLeastOne(bs[0].length);
      }
      RepeatMore(cs[0], Copies(bs) - 1);
    } else {
      RepeatOnce(AllPkts(cs));
    }
  }

  lemma AtLeastOne(length: nat)
    requires 0 < length <= BUFFER_SIZE
    ensures BUFFER_SIZE / length >= 1
  {
    var q, m := BUFFER_SIZE / length, BUFFER_SIZE % length;
    assert BUFFER_SIZE == length * q + m;
    assert q == 0 ==> length * q == 0;
  }

  // The bytes that k copies take.
  function Taken(length: nat, k: nat): nat { if k == 0 then 0 else Taken(length, k - 1) + length }

  lemma {:induction false} TakenIsProduct(length: nat, k: nat)
    ensures Taken(length, k) == length * k
  {
    if k > 0 {
      TakenIsProduct(length, k - 1);
    }
  }

  // When no further copy fits, the copies are as many as the quotient says.
  lemma FitsOften(length: nat, k: nat)
    requires length > 0 && Taken(length, k) <= BUFFER_SIZE < Taken(length, k) + length
    ensures k == BUFFER_SIZE / length
  {
    var q, m := BUFFER_SIZE / length, BUFFER_SIZE % length;
    TakenIsProduct(length, k);
    assert BUFFER_SIZE == length * q + m;
    QuotientUnique(BUFFER_SIZE, length, k, BUFFER_SIZE - length * k, q, m);
  }

  // Copies the packets over the rest of the buffer, as often as they fit.
  method FillBuffer(mem0: Mem, b0: Buffer, ghost pkts: seq<Packet>) returns (mem: Mem, b: Buffer)
    requires Holds(mem0, b0, pkts) && GoodBuffer(b0) && 0 < b0.length && b0.addr + BUFFER_SIZE <= |mem0|
    ensures Holds(mem, b, Repeat(pkts, BUFFER_SIZE / b0.length)) && GoodBuffer(b) && b.addr == b0.addr
    ensures b.length + b0.length > BUFFER_SIZE
  {
    mem, b := mem0, b0;
    ghost var k: nat := 1;
    RepeatOnce(pkts);
    while b.length + b0.length <= BUFFER_SIZE
      invariant Holds(mem, b, Repeat(pkts, k)) && GoodBuffer(b) && b.length == Taken(b0.length, k)
      invariant Holds(mem, b0, pkts) && |mem| == |mem0| && b.addr == b0.addr && b0.length <= b.length
      decreases BUFFER_SIZE - b.length
    {
      mem, b := CopyOnce(mem, b, Repeat(pkts, k), b0, pkts);
      k := k + 1;
    }
    FitsOften(b0.length, k);
  }

  // Copies the original packets behind what the buffer holds.
  method CopyOnce(mem0: Mem, b: Buffer, ghost ps: seq<Packet>, b0: Buffer, ghost qs: seq<Packet>)
      returns (mem: Mem, r: Buffer)
    requires Holds(mem0, b, ps) && Holds(mem0, b0, qs) && b.addr == b0.addr && b0.length <= b.length
    requires b.addr + b.length + b0.length <= |mem0|
    ensures Holds(mem, r, ps + qs) && Holds(mem, b0, qs) && |mem| == |mem0|
    ensures r.addr == b.addr && r.length == b.length + b0.length
  {
    HoldsCopy(mem0, b, ps, b0, qs);
    mem := CopyTo(mem0, b.addr + b.length, mem0[b0.addr..b0.addr + b0.length]);
    r := Buffer(b.addr, b.length + b0.length, b.nbPkts + b0.nbPkts);
  }

  lemma RepeatMore(ps: seq<Packet>, k: nat)
    requires ps != []
    ensures Repeat(ps, k + 1) == Repeat(ps, k) + ps && Repeat(ps, k + 1) != []
  {
  }

  lemma HoldsCopy(mem: Mem, b: Buffer, ps: seq<Packet>, b0: Buffer, qs: seq<Packet>)
    requires Holds(mem, b, ps) && Holds(mem, b0, qs) && b.addr == b0.addr && b0.length <= b.length
    requires b.addr + b.length + b0.length <= |mem|
    ensures var mem' := Overwrite(mem, b.addr + b.length, mem[b0.addr..b0.addr + b0.length]);
            && Holds(mem', Buffer(b.addr, b.length + b0.length, b.nbPkts + b0.nbPkts), ps + qs)
            && Holds(mem', b0, qs)
  {
    var at, data := b.addr + b.length, mem[b0.addr..b0.addr + b0.length];
    SliceAcross(mem, at, data, b.addr, at + |data|);
    assert mem[at + |data|..at + |data|] == [];
    BytesAppend(ps, qs);
    HoldsStill(mem, at, data, b0, qs);
  }

  lemma RepeatOnce<T>(s: seq<T>)
    ensures Repeat(s, 1) == s
  {
    assert Repeat(s, 1) == Repeat(s, 0) + s;
  }

  lemma OneContent(cs: seq<seq<Packet>>)
    requires |cs| == 1
    ensures AllPkts(cs) == cs[0]
  {
    AllPktsPush([], cs[0]);
    assert [] + [cs[0]] == cs;
  }

  // How much to send.

  lemma AllPktsStep(cs: seq<seq<Packet>>, i: nat)
    requires i < |cs|
    ensures AllPkts(cs[..i + 1]) == AllPkts(cs[..i]) + cs[i]
  {
    assert cs[..i + 1] == cs[..i] + [cs[i]];
    AllPktsPush(cs[..i], cs[i]);
  }

  lemma TotalsStep(cs: seq<seq<Packet>>, i: nat)
    requires i < |cs|
    ensures |AllPkts(cs[..i + 1])| == |AllPkts(cs[..i])| + |cs[i]|
    ensures |Bytes(AllPkts(cs[..i + 1]))| == |Bytes(AllPkts(cs[..i]))| + |Bytes(cs[i])|
  {
    AllPktsStep(cs, i);
    BytesAppend(AllPkts(cs[..i]), cs[i]);
  }

  lemma AllPktsSplit(cs: seq<seq<Packet>>, i: nat)
    requires i <= |cs|
    ensures AllPkts(cs) == AllPkts(cs[..i]) + AllPkts(cs[i..])
  {
    assert cs == cs[..i] + cs[i..];
    AllPktsAppend(cs[..i], cs[i..]);
  }

  lemma StoredSizes(mem: Mem, bs: seq<Buffer>, cs: seq<seq<Packet>>, i: nat)
    requires Stored(mem, bs, cs) && i < |bs|
    ensures Holds(mem, bs[i], cs[i]) && bs[i].nbPkts == |cs[i]| && bs[i].length == |Bytes(cs[i])|
  {
    assert Holds(mem, bs[i], cs[i]);
  }

  method Totals(buffers: seq<Buffer>, ghost mem: Mem, ghost cs: seq<seq<Packet>>) returns (pkts: nat, bytes: nat)
    requires Stored(mem, buffers, cs)
    ensures pkts == |AllPkts(cs)| && bytes == |Bytes(AllPkts(cs))|
  {
    pkts, bytes := 0, 0;
    for i := 0 to |buffers|
      invariant pkts == |AllPkts(cs[..i])| && bytes == |Bytes(AllPkts(cs[..i]))|
    {
      TotalsStep(cs, i);
      StoredSizes(mem, buffers, cs, i);
      pkts := pkts + buffers[i].nbPkts;
      bytes := bytes + buffers[i].length;
    }
    assert cs[..|buffers|] == cs;
  }

  ghost function BytesBefore(pkts: seq<Packet>, k: nat): nat
    requires k <= |pkts|
  {
    |Bytes(pkts[..k])|
  }

  // The header of the k-th packet of a buffer is where the walk over the memory finds it.
  lemma PacketInMemory(mem: Mem, b: Buffer, pkts: seq<Packet>, k: nat)
    requires Holds(mem, b, pkts) && k < |pkts|
    ensures PktLen(View(mem), b.addr + BytesBefore(pkts, k)) == |pkts[k]|
  {
    var front, p, rest := pkts[..k], pkts[k], pkts[k + 1..];
    assert pkts == (front + [p]) + rest;
    BytesAppend(front + [p], rest);
    BytesPush(front, p);
    HeaderAt(mem, b.addr, b.length, Bytes(front), p, Bytes(rest));
  }

  lemma BytesStep(pkts: seq<Packet>, k: nat)
    requires k < |pkts|
    ensures BytesBefore(pkts, k + 1) == BytesBefore(pkts, k) + NbFlits(|pkts[k]|) * FLIT
  {
    TakeMore(pkts, k);
    BytesPush(pkts[..k], pkts[k]);
  }

  lemma HeaderAt(mem: Mem, addr: nat, length: nat, front: Mem, p: Packet, rest: Mem)
    requires addr + length <= |mem| && mem[addr..addr + length] == front + Padded(p) + rest
    ensures PktLen(View(mem), addr + |front|) == |p|
  {
    var at, region := addr + |front|, mem[addr..addr + length];
    assert region[|front| + 16] == Padded(p)[16] == p[16];
    assert region[|front| + 17] == Padded(p)[17] == p[17];
    assert mem[at + 16] == p[16] && mem[at + 17] == p[17];
    assert View(mem)(at + 16) == View(p)(16) && View(mem)(at + 17) == View(p)(17);
  }

  // The bytes of a buffer's first `count` packets, by the lengths in their headers.
  method BufferBytes(mem: Mem, b: Buffer, count: nat, ghost pkts: seq<Packet>) returns (bytes: nat)
    requires Holds(mem, b, pkts) && count <= |pkts|
    ensures bytes == |Bytes(pkts[..count])|
  {
    bytes := 0;
    var pkt := b.addr;
    var left := count;
    ghost var k := 0;
    while left > 0
      invariant 0 <= left && 0 <= k <= |pkts| && k + left == count
      invariant bytes == BytesBefore(pkts, k) && pkt == b.addr + bytes
    {
      PacketInMemory(mem, b, pkts, k);
      BytesStep(pkts, k);
      var pktLen := PktLen(View(mem), pkt);
      bytes := bytes + NbFlits(pktLen) * FLIT;
      left := left - 1;
      pkt := NextPkt(View(mem), pkt);
      k := k + 1;
    }
  }

  lemma NotAllYet(cs: seq<seq<Packet>>, i: nat, count: nat)
    requires i < |cs| && |AllPkts(cs[..i + 1])| <= count < |AllPkts(cs)|
    ensures i + 1 < |cs|
  {
    if i + 1 == |cs| {
      TakeAll(cs);
    }
  }

  lemma PartSplit(cs: seq<seq<Packet>>, i: nat, left: nat, count: nat)
    requires i < |cs| && left <= |cs[i]| && count == |AllPkts(cs[..i])| + left
    ensures count <= |AllPkts(cs)|
    ensures |Bytes(AllPkts(cs)[..count])| == |Bytes(AllPkts(cs[..i]))| + |Bytes(cs[i][..left])|
  {
    AllPktsStep(cs, i);
    AllPktsSplit(cs, i + 1);
    assert AllPkts(cs)[..count] == AllPkts(cs[..i]) + cs[i][..left];
    BytesAppend(AllPkts(cs[..i]), cs[i][..left]);
  }

  // The bytes of the first `count` packets: whole buffers, then packet by packet.
  method PartialBytes(mem: Mem, buffers: seq<Buffer>, count: nat, ghost cs: seq<seq<Packet>>) returns (bytes: nat)
    requires Stored(mem, buffers, cs) && count < |AllPkts(cs)|
    ensures bytes == |Bytes(AllPkts(cs)[..count])|
  {
    bytes := 0;
    var left := count;
    var i := 0;
    while left >= buffers[i].nbPkts
      invariant 0 <= i < |buffers| && 0 <= left == count - |AllPkts(cs[..i])|
      invariant bytes == |Bytes(AllPkts(cs[..i]))|
      decreases |buffers| - i
    {
      TotalsStep(cs, i);
      StoredSizes(mem, buffers, cs, i);
      NotAllYet(cs, i, count);
      bytes := bytes + buffers[i].length;
      left := left - buffers[i].nbPkts;
      i := i + 1;
    }
    StoredSizes(mem, buffers, cs, i);
    var part := BufferBytes(mem, buffers[i], left, cs[i]);
    PartSplit(cs, i, left, count);
    bytes := bytes + part;
  }

  lemma BytesOfTake(all: seq<Packet>, n: nat)
    requires all != []
    ensures |Bytes(CyclicTake(all, n))| == (n / |all|) * |Bytes(all)| + |Bytes(all[..n % |all|])|
  {
    var rounds, rest := n / |all|, n % |all|;
    BytesAppend(Repeat(all, rounds), all[..rest]);
    BytesOfRepeat(all, rounds);
    RepeatLength(Bytes(all), rounds);
  }

  // The total for nbPkts packets: full rounds plus a part of one.
  method TotalBytesToSend(mem: Mem, buffers: seq<Buffer>, nbPkts: nat, ghost cs: seq<seq<Packet>>) returns (total: nat)
    requires Stored(mem, buffers, cs) && AllPkts(cs) != []
    ensures total == |Bytes(CyclicTake(AllPkts(cs), nbPkts))|
  {
    var pkts, bytes := Totals(buffers, mem, cs);
    BytesOfTake(AllPkts(cs), nbPkts);
    var partial := PartialBytes(mem, buffers, nbPkts % pkts, cs);
    total := (nbPkts / pkts) * bytes + partial;
  }

  // Sending.

  ghost predicate InMemory(mem: Mem, addrs: seq<nat>) {
    forall i :: 0 <= i < |addrs| ==> addrs[i] < |mem|
  }

  // What the NIC fetches for a list of descriptors.
  ghost function Fetch(mem: Mem, ds: seq<Desc>): Mem
    requires InMemory(mem, AllBytes(ds))
  {
    seq(|AllBytes(ds)|, i requires 0 <= i < |AllBytes(ds)| => mem[AllBytes(ds)[i]])
  }

  lemma BufferInPage(addr: nat)
    requires addr % BUFFER_SIZE == 0
    ensures addr % BUF_PAGE_SIZE + BUFFER_SIZE <= BUF_PAGE_SIZE
  {
  }

  // A transfer of at most one buffer from its start takes a single descriptor, so it is
  // one request with one completion, and the NIC fetches just that region.
  lemma OneDescriptor(b: Buffer, len: nat)
    requires b.addr % BUFFER_SIZE == 0 && 0 < len <= BUFFER_SIZE
    ensures Segments(b.addr, len) == [Desc(b.addr, len, true, DATA_SIGNAL)]
  {
    BufferInPage(b.addr);
    assert ChunkLen(b.addr, len) == len;
    assert Segments(NextAddr(b.addr, len), 0) == [];
  }

  lemma FetchRegion(mem: Mem, addr: nat, len: nat)
    requires addr + len <= |mem|
    ensures InMemory(mem, AllBytes([Desc(addr, len, true, DATA_SIGNAL)]))
    ensures Fetch(mem, [Desc(addr, len, true, DATA_SIGNAL)]) == mem[addr..addr + len]
  {
    var d := Desc(addr, len, true, DATA_SIGNAL);
    assert [d][1..] == [];
    assert AllBytes([d]) == DescBytes(d) + [] == DescBytes(d);
  }

  // Everything sent so far: whole rounds over the buffers, then whole buffers.
  ghost predicate AtBuffer(sent: Mem, cs: seq<seq<Packet>>, rounds: nat, cur: nat) {
    cur < |cs| && sent == Repeat(Bytes(AllPkts(cs)), rounds) + Bytes(AllPkts(cs[..cur]))
  }

  // Where the buffer after `cur` starts; after the last one the next round does.
  ghost predicate AtNext(sent: Mem, cs: seq<seq<Packet>>, rounds: nat, cur: nat) {
    if cur + 1 < |cs| then AtBuffer(sent, cs, rounds, cur + 1) else AtBuffer(sent, cs, rounds + 1, 0)
  }

  // Sending the current buffer whole leads to the next one, or to the next round.
  lemma SendWhole(sent: Mem, cs: seq<seq<Packet>>, rounds: nat, cur: nat)
    requires AtBuffer(sent, cs, rounds, cur)
    ensures AtNext(sent + Bytes(cs[cur]), cs, rounds, cur)
  {
    var all := Bytes(AllPkts(cs));
    AllPktsStep(cs, cur);
    BytesAppend(AllPkts(cs[..cur]), cs[cur]);
    Associate(Repeat(all, rounds), Bytes(AllPkts(cs[..cur])), Bytes(cs[cur]));
    if cur + 1 == |cs| {
      assert cs[..cur + 1] == cs && cs[..0] == [];
      Associate(Repeat(all, rounds), all, []);
    }
  }

  // Whatever part of the current buffer is sent, what has been sent is a beginning of
  // the repetition.
  lemma SendPart(sent: Mem, cs: seq<seq<Packet>>, rounds: nat, cur: nat, length: nat)
    requires AtBuffer(sent, cs, rounds, cur) && length <= |Bytes(cs[cur])|
    ensures IsCyclic(sent + Bytes(cs[cur])[..length], Bytes(AllPkts(cs)))
  {
    var all := Bytes(AllPkts(cs));
    AllPktsStep(cs, cur);
    AllPktsSplit(cs, cur + 1);
    BytesAppend(AllPkts(cs[..cur]), cs[cur]);
    BytesAppend(AllPkts(cs[..cur + 1]), AllPkts(cs[cur + 1..]));
    Extend(Repeat(all, rounds), Bytes(AllPkts(cs[..cur])), Bytes(cs[cur]), all, length);
    assert sent + Bytes(cs[cur])[..length] <= Repeat(all, rounds + 1);
  }

  lemma Extend(a: Mem, b: Mem, c: Mem, all: Mem, length: nat)
    requires b + c <= all && length <= |c|
    ensures a + b + c[..length] <= a + all
  {
  }

  // Every descriptor in the ring ends a request.
  ghost predicate AllLast(window: seq<Desc>) {
    forall i :: 0 <= i < |window| ==> window[i].last
  }

  lemma {:induction false} CountAllLast(window: seq<Desc>)
    requires AllLast(window)
    ensures P.CountLast(window) == |window|
  {
    if window != [] {
      CountAllLast(window[1..]);
    }
  }

  // The sender's count of pending transmissions against the ring: completions counted
  // and not yet handed out, plus requests whose last descriptor is in the ring.
  ghost predicate Accounted(ring: P.Ring, pending: nat) {
    && pending == ring.unreported + P.CountLast(ring.window)
    && ring.published == |ring.window| == |ring.done|
    && AllLast(ring.window)
    && ring.unreported == 0
  }

  // A send with room in the ring adds one.
  lemma SendAccounted(r0: P.Ring, pending: nat, b: Buffer, len: nat, r: P.Ring)
    requires Accounted(r0, pending) && b.addr % BUFFER_SIZE == 0 && 0 < len <= BUFFER_SIZE
    requires Appended(r0, Segments(b.addr, len), r)
    ensures Accounted(r.(published := |r.window|), pending + 1)
    ensures r.window[|r0.window|..] == [Desc(b.addr, len, true, DATA_SIGNAL)]
  {
    OneDescriptor(b, len);
    CountAllLast(r0.window);
    CountAllLast(r.window);
  }

  // There is room below the threshold.
  lemma SendHasRoom(r: P.Ring, pending: nat, b: Buffer, len: nat)
    requires Accounted(r, pending) && pending < FILL_THRESHOLD
    requires b.addr % BUFFER_SIZE == 0 && 0 < len <= BUFFER_SIZE
    ensures |r.window| + |Segments(b.addr, len)| <= P.RING_CAP
  {
    OneDescriptor(b, len);
    CountAllLast(r.window);
  }

  // What the ring hands out is at most what is pending, and what is left is accounted for.
  lemma ReclaimAccounted(r0: P.Ring, pending: nat, mid: P.Ring, n: nat, r: P.Ring)
    requires Accounted(r0, pending) && NicThenReclaim(r0, mid, n, r)
    ensures r.unreported <= pending && Accounted(r.(unreported := 0), pending - r.unreported)
    ensures |r.window| == |r0.window| - n && (pending > 0 ==> r0.published > 0)
  {
    P.ReclaimCounts(mid, n);
    P.ReclaimShape(mid, n);
    CountAllLast(r0.window);
  }

  class Sender {
    const memory: Mem
    const buffers: seq<Buffer>
    const total: nat
    const nbp: NotificationBufPair
    var remaining: nat
    var pending: nat
    var ignoredReclaims: nat
    var cur: nat
    var running: bool
    ghost const contents: seq<seq<Packet>>
    ghost var sent: Mem      // history: what the NIC fetches for the descriptors written
    ghost var rounds: nat

    ghost predicate Valid()
      reads this, nbp, nbp.txBuf, nbp.wrapTracker
    {
      && nbp.Valid() && Accounted(nbp.ring, pending) && pending <= FILL_THRESHOLD
      && ignoredReclaims <= TX_RECLAIM_DELAY + 1
      && Stored(memory, buffers, contents) && NoneEmpty(contents) && buffers != []
      && StreamValid()
    }

    ghost predicate StreamValid()
      reads this
    {
      && |sent| + remaining == total
      && IsCyclic(sent, Bytes(AllPkts(contents)))
      && (running <==> remaining > 0)
      && (running ==> AtBuffer(sent, contents, rounds, cur))
    }

    constructor (nbp: NotificationBufPair, memory: Mem, buffers: seq<Buffer>, total: nat, ghost contents: seq<seq<Packet>>)
      requires nbp.Valid() && nbp.ring == P.Ring(nbp.ring.head, [], [], 0, 0, 0)
      requires Stored(memory, buffers, contents) && NoneEmpty(contents) && buffers != [] && total > 0
      ensures Valid() && sent == [] && running
      ensures this.nbp == nbp && this.contents == contents && this.total == total
    {
      this.nbp, this.memory, this.buffers, this.contents := nbp, memory, buffers, contents;
      this.total, remaining := total, total;
      pending, ignoredReclaims, cur, running := 0, 0, 0, true;
      sent, rounds := [], 0;
      new;
      assert contents[..0] == [];
      assert sent <= Repeat(Bytes(AllPkts(contents)), 0);
    }

    // The length of the next transfer: the current buffer, or as much of it as is left.
    method NextLength() returns (length: nat)
      requires Valid() && running
      ensures 0 < length <= remaining && length <= buffers[cur].length <= BUFFER_SIZE
      ensures length < remaining ==> length == buffers[cur].length
    {
      assert Holds(memory, buffers[cur], contents[cur]) && GoodBuffer(buffers[cur]);
      NonEmptyBytes(contents[cur]);
      length := Min(Min(BUFFER_SIZE, remaining), buffers[cur].length);
    }

    // Sends the next buffer, or as much of it as is left to send. Below the threshold the
    // ring has room, so the send does not block and reclaims nothing.
    method SendNext()
      requires Valid() && running && pending < FILL_THRESHOLD
      modifies this, nbp, nbp.txBuf, nbp.wrapTracker
      ensures Valid() && old(sent) <= sent && pending == old(pending) + 1
      ensures remaining < old(remaining) && ignoredReclaims == old(ignoredReclaims)
      ensures nbp.ring.head == old(nbp.ring.head) && |nbp.ring.window| == |old(nbp.ring).window| + 1
    {
      var length := NextLength();
      var b := buffers[cur];
      assert GoodBuffer(b) && Holds(memory, b, contents[cur]);
      Transmit(b, length);
      RegionSent(memory, b, contents, old(sent), rounds, cur, length);
      MoveOn(length);
    }

    // Hands the region to the NIC.
    method Transmit(b: Buffer, length: nat)
      requires nbp.Valid() && Accounted(nbp.ring, pending) && pending < FILL_THRESHOLD
      requires b.addr % BUFFER_SIZE == 0 && 0 < length <= BUFFER_SIZE && b.addr + length <= |memory|
      modifies this`sent, this`pending, nbp, nbp.txBuf, nbp.wrapTracker
      ensures nbp.Valid() && Accounted(nbp.ring, pending) && pending == old(pending) + 1
      ensures sent == old(sent) + memory[b.addr..b.addr + length]
      ensures nbp.ring.head == old(nbp.ring.head) && |nbp.ring.window| == |old(nbp.ring).window| + 1
    {
      SendHasRoom(nbp.ring, pending, b, length);
      ghost var r0 := nbp.ring;
      ghost var r := nbp.SendToQueue(b.addr, length);
      SendAccounted(r0, pending, b, length, r);
      FetchRegion(memory, b.addr, length);
      sent := sent + Fetch(memory, r.window[|r0.window|..]);
      pending := pending + 1;
    }

    // Accounts for the bytes sent, and moves to the next buffer unless all are.
    method MoveOn(length: nat)
      requires running && cur < |buffers| == |contents| && 0 < length <= remaining
      requires |sent| + remaining - length == total && IsCyclic(sent, Bytes(AllPkts(contents)))
      requires length < remaining ==> AtNext(sent, contents, rounds, cur)
      modifies this`remaining, this`cur, this`running, this`rounds
      ensures StreamValid() && remaining == old(remaining) - length
    {
      remaining := remaining - length;
      if remaining == 0 {
        running := false;
      } else {
        NextBuffer();
      }
    }

    // The next buffer, or the first one again.
    method NextBuffer()
      requires cur < |buffers|
      modifies this`cur, this`rounds
      ensures if old(cur) + 1 < |buffers| then cur == old(cur) + 1 && rounds == old(rounds)
              else cur == 0 && rounds == old(rounds) + 1
    {
      cur := cur + 1;
      if cur == |buffers| {
        cur := 0;
        rounds := rounds + 1;
      }
    }

    // Takes the completions the ring has counted off the pending transmissions.
    // It takes all there are, up to a batch.
    method GetCompletions() returns (ghost mid: P.Ring, ghost n: nat)
      requires Valid()
      modifies this`pending, nbp, nbp.txBuf, nbp.wrapTracker
      ensures Valid() && pending <= old(pending)
      ensures P.TakesAll(old(nbp.ring), mid, n) && nbp.ring == P.Reclaim(mid, n).(unreported := 0)
      ensures pending == old(pending) - P.CountLast(old(nbp.ring).window[..n])
      ensures |nbp.ring.window| <= |old(nbp.ring).window|
      ensures old(pending) > 0 && |nbp.ring.window| == |old(nbp.ring).window| ==> nbp.nicPatience < old(nbp.nicPatience)
    {
      ghost var r0 := nbp.ring;
      var completions;
      ghost var r;
      completions, mid, n, r := nbp.GetUnreportedCompletions();
      ReclaimAccounted(r0, pending, mid, n, r);
      pending := pending - completions;
    }

    // A call sends one transfer below the threshold.
    function SendsNow(pending: nat): nat { if pending < NOTIFICATION_BUF_SIZE - 2 then 1 else 0 }

    // How far one call is from the next: bytes to send, then descriptors in the ring,
    // then polls the NIC may let pass, then calls that do not look at the ring.
    twostate predicate Nearer()
      reads this, nbp
    {
      var w, w0 := |nbp.ring.window|, |old(nbp.ring).window|;
      || remaining < old(remaining)
      || (remaining == old(remaining) && w < w0)
      || (remaining == old(remaining) && w == w0 && nbp.nicPatience < old(nbp.nicPatience))
      || (remaining == old(remaining) && w == w0 && nbp.nicPatience == old(nbp.nicPatience)
          && ignoredReclaims > old(ignoredReclaims))
    }

    // Whether a call that leaves `inFlight` transmissions pending looks at the ring.
    function Looks(inFlight: nat, ignored: nat): bool {
      inFlight > NOTIFICATION_BUF_SIZE / 4 && ignored > 1024
    }

    // One call of the transmit loop: it sends one buffer below the threshold, and it takes
    // completions only when many are pending and that often ignored. `r` is the ring before
    // it looks.
    method TransmitPkts() returns (ghost r: P.Ring, ghost mid: P.Ring, ghost n: nat)
      requires Valid() && running
      modifies this, nbp, nbp.txBuf, nbp.wrapTracker
      ensures Valid() && old(sent) <= sent && Nearer()
      ensures r.head == old(nbp.ring).head && |r.window| == |old(nbp.ring).window| + SendsNow(old(pending))
      ensures if old(pending) < NOTIFICATION_BUF_SIZE - 2 then remaining < old(remaining)
              else remaining == old(remaining) && sent == old(sent)
      ensures var inFlight := old(pending) + SendsNow(old(pending));
              if running && Looks(inFlight, old(ignoredReclaims))
              then && ignoredReclaims == 0 && P.TakesAll(r, mid, n)
                   && nbp.ring == P.Reclaim(mid, n).(unreported := 0)
              else && pending == inFlight && nbp.ring == r
                   && ignoredReclaims == old(ignoredReclaims) + (if running && inFlight > NOTIFICATION_BUF_SIZE / 4 then 1 else 0)
    {
      mid, n := nbp.ring, 0;
      if pending < FILL_THRESHOLD {
        SendNext();
        if !running {
          r := nbp.ring;
          return;
        }
      }
      r := nbp.ring;
      mid, n := ReclaimNowAndThen();
    }

    // Takes completions off the pending transmissions, at the rare times it looks.
    method ReclaimNowAndThen() returns (ghost mid: P.Ring, ghost n: nat)
      requires Valid()
      modifies this`pending, this`ignoredReclaims, nbp, nbp.txBuf, nbp.wrapTracker
      ensures Valid()
      ensures if Looks(old(pending), old(ignoredReclaims))
              then && ignoredReclaims == 0 && P.TakesAll(old(nbp.ring), mid, n)
                   && nbp.ring == P.Reclaim(mid, n).(unreported := 0)
                   && |nbp.ring.window| <= |old(nbp.ring).window|
                   && (|nbp.ring.window| == |old(nbp.ring).window| ==> nbp.nicPatience < old(nbp.nicPatience))
              else && pending == old(pending) && nbp.ring == old(nbp.ring) && nbp.nicPatience == old(nbp.nicPatience)
                   && ignoredReclaims == old(ignoredReclaims) + (if old(pending) > NOTIFICATION_BUF_SIZE / 4 then 1 else 0)
    {
      mid, n := nbp.ring, 0;
      if pending > NOTIFICATION_BUF_SIZE / 4 {
        if ignoredReclaims > TX_RECLAIM_DELAY {
          ignoredReclaims := 0;
          mid, n := GetCompletions();
        } else {
          ignoredReclaims := ignoredReclaims + 1;
        }
      }
    }

    // The loop comes to its end, whatever the NIC's patience, and has then sent exactly
    // as many bytes as asked for.
    method TransmitLoop()
      requires Valid()
      modifies this, nbp, nbp.txBuf, nbp.wrapTracker
      ensures Valid() && !running && |sent| == total
    {
      while running
        invariant Valid()
        decreases remaining, |nbp.ring.window|, nbp.nicPatience, TX_RECLAIM_DELAY + 1 - ignoredReclaims
      {
        ghost var r, mid, n := TransmitPkts();
      }
    }

    // Waits until every transmission has completed: the count reaches 0, and with it the
    // ring is empty.
    method ReclaimAllBuffers()
      requires Valid()
      modifies this`pending, nbp, nbp.txBuf, nbp.wrapTracker
      ensures Valid() && pending == 0 && nbp.ring.window == []
    {
      while pending > 0
        invariant Valid()
        decreases |nbp.ring.window|, nbp.nicPatience
      {
        ghost var mid, n := GetCompletions();
      }
      CountAllLast(nbp.ring.window);
    }
  }

  // What a transfer of the region makes of the stream.
  lemma RegionSent(mem: Mem, b: Buffer, cs: seq<seq<Packet>>, before: Mem, rounds: nat, cur: nat, length: nat)
    requires AtBuffer(before, cs, rounds, cur) && Holds(mem, b, cs[cur]) && length <= b.length
    ensures var sent := before + mem[b.addr..b.addr + length];
            && |sent| == |before| + length
            && IsCyclic(sent, Bytes(AllPkts(cs)))
            && (length == b.length ==> AtNext(sent, cs, rounds, cur))
  {
    PartOfRegion(mem, b, cs[cur], length);
    SendPart(before, cs, rounds, cur, length);
    SendWhole(before, cs, rounds, cur);
  }

  lemma PartOfRegion(mem: Mem, b: Buffer, pkts: seq<Packet>, length: nat)
    requires Holds(mem, b, pkts) && length <= b.length
    ensures mem[b.addr..b.addr + length] == Bytes(pkts)[..length]
    ensures length == b.length ==> mem[b.addr..b.addr + length] == Bytes(pkts)
  {
    assert mem[b.addr..b.addr + length] == mem[b.addr..b.addr + b.length][..length];
  }

  // What EnsoGen is for: when the sender stops, it has sent exactly the padded bytes of
  // the first nbPkts packets of the endless repetition of the capture, in order.
  lemma SendsExactlyWhatWasAsked(pcap: seq<Packet>, all: seq<Packet>, copies: nat, nbPkts: nat, sent: Mem)
    requires pcap != [] && copies >= 1 && all == Repeat(pcap, copies) && all != []
    requires |sent| == |Bytes(CyclicTake(all, nbPkts))| && IsCyclic(sent, Bytes(all))
    ensures sent == Bytes(CyclicTake(pcap, nbPkts))
  {
    CyclicTakeIsCyclic(all, nbPkts);
    CyclicTakeIsCyclic(pcap, nbPkts);
    CyclicOfRepeat(CyclicTake(all, nbPkts), pcap, copies);
    CyclicUnique(CyclicTake(all, nbPkts), CyclicTake(pcap, nbPkts), pcap);
    CyclicBytes(CyclicTake(pcap, nbPkts), pcap);
    BytesOfRepeat(pcap, copies);
    CyclicOfRepeat(sent, Bytes(pcap), copies);
    CyclicUnique(sent, Bytes(CyclicTake(pcap, nbPkts)), Bytes(pcap));
  }

  // The whole program, for any capture of IPv4 packets and any number of packets: it comes
  // to its end, and what the NIC was told to fetch is exactly what was asked for.
  method Run(pcap: seq<Packet>, nbPkts: nat, nicTail: nat) returns (sender: Sender?)
    requires pcap != [] && nbPkts > 0 && nicTail < NOTIFICATION_BUF_SIZE
    ensures sender != null <==> AllIpv4(pcap)
    ensures sender != null ==> sender.Valid() && sender.sent == Bytes(CyclicTake(pcap, nbPkts)) && sender.pending == 0
  {
    var ok, mem, buffers;
    ghost var packed;
    ok, mem, buffers, packed := Pack(pcap);
    if !ok {
      return null;
    }
    ghost var copies, contents := Copies(buffers), Replicated(buffers, packed);
    ReplicatedRepeats(mem, buffers, packed);
    mem, buffers := Replicate(mem, buffers, packed);
    RepeatMore(pcap, copies - 1);
    var total := TotalBytesToSend(mem, buffers, nbPkts, contents);
    PositiveTotal(AllPkts(contents), nbPkts);
    var nbp := new NotificationBufPair(nicTail);
    sender := new Sender(nbp, mem, buffers, total, contents);
    sender.TransmitLoop();
    SendsExactlyWhatWasAsked(pcap, AllPkts(contents), copies, nbPkts, sender.sent);
    sender.ReclaimAllBuffers();
  }

  lemma PositiveTotal(all: seq<Packet>, n: nat)
    requires all != [] && n > 0
    ensures |Bytes(CyclicTake(all, n))| > 0
  {
    CyclicTakeIsCyclic(all, n);
    NonEmptyBytes(CyclicTake(all, n));
  }
}
