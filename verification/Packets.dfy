// Iterating over the packets of a received batch. Packets are stored back to back, each
// padded to whole flits; their length is read from the IPv4 header.
module Packets {
  import opened Consts
  import opened RxPipes

  type Byte = b: nat | b < 256

  // What the address space holds; reads past the end of a batch see the mirrored page.
  type Memory = nat -> Byte

  const ETHER_HEADER: nat := 14

  // Swaps the bytes of a 16-bit value, by masks and shifts.
  function BeToLe16(le: nat): nat
    requires le < U16
  {
    (le % 256) * 256 + le / 256
  }

  // A little-endian load of the Total Length field, swapped, plus the Ethernet header;
  // kept in 16 bits.
  function PktLen(mem: Memory, addr: nat): nat {
    var raw := mem(addr + ETHER_HEADER + 2) + 256 * mem(addr + ETHER_HEADER + 3);
    (BeToLe16(raw) + ETHER_HEADER) % U16
  }

  // C division truncates, so a length of 0 counts as one flit.
  function NbFlits(len: nat): nat
    requires len < U16
  {
    ((if len == 0 then 0 else (len - 1) / FLIT) + 1) % U16
  }

  function NextPkt(mem: Memory, pkt: nat): nat { pkt + NbFlits(PktLen(mem, pkt)) * FLIT }

  function Size(mem: Memory, pkt: nat): nat { NbFlits(PktLen(mem, pkt)) * FLIT }

  // The Total Length field of section 3.1 of RFC 791, most significant byte first.
  function TotalLength(mem: Memory, addr: nat): nat { 256 * mem(addr + 16) + mem(addr + 17) }

  // The length is the Total Length plus the 14 bytes in front of the IP header, exactly
  // when that fits in 16 bits.
  lemma PktLenIsTotalLength(mem: Memory, addr: nat)
    ensures PktLen(mem, addr) == TotalLength(mem, addr) + 14 <==> TotalLength(mem, addr) + 14 < U16
    ensures PktLen(mem, addr) == (TotalLength(mem, addr) + 14) % U16
  {
    var lo: nat, hi: nat := mem(addr + 16), mem(addr + 17);
    var raw: nat := lo + 256 * hi;
    assert raw % 256 == lo && raw / 256 == hi;
  }

  lemma FlitsCover(len: nat)
    requires len < U16
    ensures 1 <= NbFlits(len) <= 1024 && len <= NbFlits(len) * FLIT
    ensures if len > 0 then NbFlits(len) * FLIT < len + FLIT else NbFlits(len) == 1
  {
    if len > 0 {
      var q, r := (len - 1) / FLIT, (len - 1) % FLIT;
      assert len - 1 == FLIT * q + r;
      assert NbFlits(len) == q + 1;
    }
  }

  // Every step covers the packet, wastes less than a flit, and moves on by at least one.
  lemma StepCoversPacket(mem: Memory, pkt: nat)
    ensures NextPkt(mem, pkt) == pkt + Size(mem, pkt)
    ensures FLIT <= Size(mem, pkt) <= U16 && Size(mem, pkt) % FLIT == 0
    ensures PktLen(mem, pkt) <= Size(mem, pkt)
    ensures if PktLen(mem, pkt) > 0 then Size(mem, pkt) < PktLen(mem, pkt) + FLIT else Size(mem, pkt) == FLIT
  {
    FlitsCover(PktLen(mem, pkt));
  }

  // Messages of any kind: how far it is from a message to the next one.
  type Stepper = nat -> nat

  ghost predicate MovesOn(step: Stepper) {
    forall a :: step(a) >= FLIT && step(a) % FLIT == 0
  }

  // The messages of a batch, independently of how they are visited: the first is at the
  // start, each next one follows the one before.
  ghost predicate IsWalk(step: Stepper, buf: nat, msgs: seq<nat>) {
    && (msgs != [] ==> msgs[0] == buf)
    && forall i :: 0 <= i < |msgs| - 1 ==> msgs[i + 1] == msgs[i] + step(msgs[i])
  }

  function EndOf(step: Stepper, buf: nat, msgs: seq<nat>): nat {
    if msgs == [] then buf else msgs[|msgs| - 1] + step(msgs[|msgs| - 1])
  }

  // A maximal walk: every message lies wholly within the batch, and it ends because the
  // limit is reached or the next message does not fit. A negative limit is no limit.
  ghost predicate IsBatch(step: Stepper, buf: nat, avail: nat, limit: int, msgs: seq<nat>) {
    && IsWalk(step, buf, msgs)
    && (forall i :: 0 <= i < |msgs| ==> msgs[i] + step(msgs[i]) <= buf + avail)
    && (limit >= 0 ==> |msgs| <= limit)
    && (|msgs| == limit || EndOf(step, buf, msgs) + step(EndOf(step, buf, msgs)) > buf + avail)
  }

  lemma {:induction false} WalksAgree(step: Stepper, buf: nat, a: seq<nat>, b: seq<nat>, i: nat)
    requires IsWalk(step, buf, a) && IsWalk(step, buf, b) && i < |a| && i < |b|
    ensures a[i] == b[i]
  {
    if i > 0 {
      WalksAgree(step, buf, a, b, i - 1);
      assert a[i - 1 + 1] == a[i - 1] + step(a[i - 1]);
      assert b[i - 1 + 1] == b[i - 1] + step(b[i - 1]);
    }
  }

  lemma ShorterStops(step: Stepper, buf: nat, avail: nat, limit: int, a: seq<nat>, b: seq<nat>)
    requires IsBatch(step, buf, avail, limit, a) && IsBatch(step, buf, avail, limit, b)
    ensures |a| >= |b|
  {
    var n := |a|;
    if n < |b| {
      assert b[n] == EndOf(step, buf, a) by {
        if n > 0 {
          WalksAgree(step, buf, a, b, n - 1);
          assert b[n - 1 + 1] == b[n - 1] + step(b[n - 1]);
        }
      }
    }
  }

  // There is exactly one maximal walk, so the loop has no other result it could give.
  lemma BatchUnique(step: Stepper, buf: nat, avail: nat, limit: int, a: seq<nat>, b: seq<nat>)
    requires IsBatch(step, buf, avail, limit, a) && IsBatch(step, buf, avail, limit, b)
    ensures a == b
  {
    ShorterStops(step, buf, avail, limit, a, b);
    ShorterStops(step, buf, avail, limit, b, a);
    forall i | 0 <= i < |a| ensures a[i] == b[i] {
      WalksAgree(step, buf, a, b, i);
    }
  }

  class MessageBatch {
    const availableBytes: nat
    const messageLimit: int
    const buf: nat
    const pipe: RxEnsoPipe
    var processedBytes: nat

    constructor (buf: nat, availableBytes: nat, messageLimit: int, pipe: RxEnsoPipe)
      ensures this.buf == buf && this.availableBytes == availableBytes && this.messageLimit == messageLimit
      ensures this.pipe == pipe && processedBytes == 0
    {
      this.buf, this.availableBytes, this.messageLimit, this.pipe := buf, availableBytes, messageLimit, pipe;
      processedBytes := 0;
    }
  }

  // The iterator of a range loop. A peeking iterator does not consume from the pipe.
  class MessageIterator {
    const batch: MessageBatch
    const peek: bool
    var addr: nat
    var missingMessages: int
    var nextAddr: nat

    constructor (step: Stepper, addr: nat, limit: int, batch: MessageBatch, peek: bool)
      ensures this.addr == addr && missingMessages == limit && nextAddr == addr + step(addr)
      ensures this.batch == batch && this.peek == peek
    {
      this.addr, missingMessages, this.batch, this.peek := addr, limit, batch, peek;
      nextAddr := addr + step(addr);
    }

    // operator!= against the end iterator.
    predicate Differs(endAddr: nat)
      reads this
    {
      missingMessages != 0 && nextAddr <= endAddr
    }

    // operator++
    method Advance(step: Stepper)
      requires addr <= nextAddr
      modifies this, batch, batch.pipe
      ensures addr == old(nextAddr) && nextAddr == addr + step(addr)
      ensures missingMessages == old(missingMessages) - 1
      ensures batch.processedBytes == old(batch.processedBytes) + (old(nextAddr) - old(addr))
      ensures batch.pipe.rxTail ==
              if peek then old(batch.pipe.rxTail)
              else TailAt(old(batch.pipe.rxTail), old(nextAddr) - old(addr))
    {
      var nbBytes := nextAddr - addr;
      if !peek {
        batch.pipe.ConfirmBytes(nbBytes);
      }
      addr := nextAddr;
      nextAddr := addr + step(addr);
      missingMessages := missingMessages - 1;
      batch.processedBytes := batch.processedBytes + nbBytes;
    }
  }

  lemma TailMoves(tail: nat, moved: nat, n: nat)
    requires moved % FLIT == 0 && n % FLIT == 0
    ensures TailAt(TailAt(tail, moved), n) == TailAt(tail, moved + n)
    ensures (moved + n) % FLIT == 0
  {
    var a, b := moved / FLIT, n / FLIT;
    assert moved == FLIT * a && n == FLIT * b;
    assert (moved + n) / FLIT == a + b;
  }

  ghost predicate Fits(step: Stepper, end: nat, msgs: seq<nat>) {
    forall i :: 0 <= i < |msgs| ==> msgs[i] + step(msgs[i]) <= end
  }

  lemma WalkOn(step: Stepper, buf: nat, end: nat, msgs: seq<nat>, addr: nat)
    requires IsWalk(step, buf, msgs) && Fits(step, end, msgs)
    requires addr == EndOf(step, buf, msgs) && addr + step(addr) <= end
    ensures IsWalk(step, buf, msgs + [addr]) && Fits(step, end, msgs + [addr])
    ensures EndOf(step, buf, msgs + [addr]) == addr + step(addr)
  {
  }

  // The tail of the pipe after `nbBytes` processed bytes; a peeking loop leaves it.
  ghost predicate TailOk(peek: bool, tail0: nat, nbBytes: nat, tail: nat) {
    nbBytes % FLIT == 0 && tail == if peek then tail0 else TailAt(tail0, nbBytes)
  }

  lemma TailOn(peek: bool, tail0: nat, nbBytes: nat, tail: nat, n: nat)
    requires TailOk(peek, tail0, nbBytes, tail) && n % FLIT == 0
    ensures TailOk(peek, tail0, nbBytes + n, if peek then tail else TailAt(tail, n))
  {
    TailMoves(tail0, nbBytes, n);
  }

  // The range loop over a batch visits precisely its maximal walk, counts its bytes,
  // and moves the tail of the pipe past exactly those.
  method ForEach(step: Stepper, batch: MessageBatch, peek: bool) returns (msgs: seq<nat>)
    requires MovesOn(step) && batch.processedBytes == 0 && batch.pipe.rxTail < ENSO_PIPE_SIZE
    modifies batch, batch.pipe
    ensures IsBatch(step, batch.buf, batch.availableBytes, batch.messageLimit, msgs)
    ensures batch.processedBytes == EndOf(step, batch.buf, msgs) - batch.buf <= batch.availableBytes
    ensures TailOk(peek, old(batch.pipe.rxTail), batch.processedBytes, batch.pipe.rxTail)
  {
    var it := new MessageIterator(step, batch.buf, batch.messageLimit, batch, peek);
    var endAddr := batch.buf + batch.availableBytes;
    ghost var tail0 := batch.pipe.rxTail;
    msgs := [];
    while it.Differs(endAddr)
      invariant it.batch == batch && it.peek == peek
      invariant it.addr == EndOf(step, batch.buf, msgs) && it.nextAddr == it.addr + step(it.addr)
      invariant it.addr <= endAddr && it.addr == batch.buf + batch.processedBytes
      invariant it.missingMessages == batch.messageLimit - |msgs|
      invariant batch.messageLimit >= 0 ==> it.missingMessages >= 0
      invariant IsWalk(step, batch.buf, msgs) && Fits(step, endAddr, msgs)
      invariant TailOk(peek, tail0, batch.processedBytes, batch.pipe.rxTail)
      decreases endAddr - it.addr
    {
      assert step(it.addr) >= FLIT && step(it.addr) % FLIT == 0;
      WalkOn(step, batch.buf, endAddr, msgs, it.addr);
      TailOn(peek, tail0, batch.processedBytes, batch.pipe.rxTail, step(it.addr));
      msgs := msgs + [it.addr];
      it.Advance(step);
    }
  }

  // The packets of a batch: the message iterator with the length of the IPv4 header.
  method ForEachPkt(mem: Memory, batch: MessageBatch, peek: bool) returns (pkts: seq<nat>)
    requires batch.processedBytes == 0 && batch.pipe.rxTail < ENSO_PIPE_SIZE
    modifies batch, batch.pipe
    ensures IsBatch(a => Size(mem, a), batch.buf, batch.availableBytes, batch.messageLimit, pkts)
    ensures batch.processedBytes == EndOf(a => Size(mem, a), batch.buf, pkts) - batch.buf <= batch.availableBytes
    ensures TailOk(peek, old(batch.pipe.rxTail), batch.processedBytes, batch.pipe.rxTail)
  {
    var step: Stepper := a => Size(mem, a);
    forall a ensures step(a) >= FLIT && step(a) % FLIT == 0 {
      StepCoversPacket(mem, a);
    }
    pkts := ForEach(step, batch, peek);
  }
}
