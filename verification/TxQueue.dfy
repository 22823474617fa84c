// The TX half of a notification buffer pair as the code keeps it: a ring of
// descriptors indexed modulo its size, a bitmap that marks the descriptors that are
// not the last of their request, and 32-bit indices. The ghost ring says what it
// stands for in the unbounded terms of TxProtocol.
module TxQueue {
  import opened Consts
  import opened Segmentation
  import opened TxProtocol
  import opened Bitmap
  import opened RingIndex

  datatype TxNotification = TxNotification(signal: nat, physAddr: nat, length: nat)

  // The slot holds what was written, until the NIC clears its signal.
  ghost predicate EntryMatches(e: TxNotification, d: Desc, done: bool) {
    d.signal != 0 && e == TxNotification(if done then 0 else d.signal, d.addr, d.len)
  }

  ghost predicate BufMatches(buf: seq<TxNotification>, head: nat, window: seq<Desc>, done: seq<bool>) {
    && |buf| == N
    && |window| == |done| < N
    && forall i :: 0 <= i < |window| ==> EntryMatches(buf[Slot(head + i)], window[i], done[i])
  }

  // A bit is set exactly on the slots whose descriptor is not the last of its
  // request; outside the window every bit is clear.
  ghost predicate WrapMatches(wrap: seq<bv8>, head: nat, window: seq<Desc>) {
    && 8 * |wrap| == N
    && forall j :: 0 <= j < N ==> Test(wrap, j) == SplitAt(head, window, j)
  }

  // Slot j holds a descriptor that is not the last of its request.
  ghost predicate SplitAt(head: nat, window: seq<Desc>, j: nat) {
    Pos(head, j) < |window| && !window[Pos(head, j)].last
  }

  lemma AppendEntry(buf: seq<TxNotification>, head: nat, window: seq<Desc>, done: seq<bool>, d: Desc, e: TxNotification)
    requires BufMatches(buf, head, window, done) && |window| < N - 1 && EntryMatches(e, d, false)
    ensures BufMatches(buf[Slot(head + |window|) := e], head, window + [d], done + [false])
  {
    var buf' := buf[Slot(head + |window|) := e];
    forall i | 0 <= i < |window + [d]|
      ensures EntryMatches(buf'[Slot(head + i)], (window + [d])[i], (done + [false])[i])
    {
      if i < |window| {
        SlotsDiffer(head, i, |window|);
      }
    }
  }

  lemma AppendSplit(head: nat, window: seq<Desc>, d: Desc, j: nat)
    requires |window| < N - 1 && j < N
    ensures SplitAt(head, window + [d], j) == (SplitAt(head, window, j) || (j == Slot(head + |window|) && !d.last))
  {
    PosOfSlot(head, |window|);
    assert j == Slot(head + |window|) <==> Pos(head, j) == |window|;
  }

  lemma AppendWrap(wrap: seq<bv8>, head: nat, window: seq<Desc>, d: Desc)
    requires WrapMatches(wrap, head, window) && |window| < N - 1
    ensures WrapMatches(if d.last then wrap else WithBit(wrap, Slot(head + |window|)), head, window + [d])
  {
    var slot := Slot(head + |window|);
    var wrap' := if d.last then wrap else WithBit(wrap, slot);
    forall j | 0 <= j < N ensures Test(wrap', j) == SplitAt(head, window + [d], j) {
      AppendSplit(head, window, d, j);
      UpdateBit(wrap, slot, j);
    }
  }

  lemma ReclaimBuf(buf: seq<TxNotification>, head: nat, window: seq<Desc>, done: seq<bool>)
    requires BufMatches(buf, head, window, done) && window != []
    ensures BufMatches(buf, head + 1, window[1..], done[1..])
  {
    forall i | 0 <= i < |window| - 1
      ensures EntryMatches(buf[Slot(head + 1 + i)], window[1..][i], done[1..][i])
    {
      assert EntryMatches(buf[Slot(head + (i + 1))], window[i + 1], done[i + 1]);
    }
  }

  lemma ReclaimSplit(head: nat, window: seq<Desc>, j: nat)
    requires 0 < |window| < N && j < N
    ensures SplitAt(head + 1, window[1..], j) == (SplitAt(head, window, j) && j != Slot(head))
    ensures SplitAt(head, window, Slot(head)) == !window[0].last
  {
    PosAfterHead(head, j);
    PosAfterHead(head, Slot(head));
  }

  lemma ReclaimWrap(wrap: seq<bv8>, head: nat, window: seq<Desc>)
    requires WrapMatches(wrap, head, window) && 0 < |window| < N
    ensures Test(wrap, Slot(head)) == !window[0].last
    ensures WrapMatches(WithoutBit(wrap, Slot(head)), head + 1, window[1..])
  {
    ReclaimSplit(head, window, Slot(head));
    var wrap' := WithoutBit(wrap, Slot(head));
    forall j | 0 <= j < N ensures Test(wrap', j) == SplitAt(head + 1, window[1..], j) {
      ReclaimSplit(head, window, j);
      UpdateBit(wrap, Slot(head), j);
    }
  }

  // Reclaiming one more at the end, and NIC progress behind what is reclaimed.
  lemma {:induction false} ReclaimMore(r: Ring, n: nat)
    requires n < r.published <= |r.window| == |r.done|
    ensures Reclaim(r, n).published == r.published - n
    ensures Reclaim(r, n).window == r.window[n..] && Reclaim(r, n).done == r.done[n..]
    ensures Reclaim(r, n + 1) == ReclaimOne(Reclaim(r, n))
    decreases n
  {
    if n == 0 {
      assert Reclaim(ReclaimOne(r), 0) == ReclaimOne(r);
    } else {
      ReclaimMore(ReclaimOne(r), n - 1);
    }
  }

  lemma {:induction false} ReclaimUnderNic(r: Ring, n: nat, done: seq<bool>)
    requires n <= r.published <= |r.window| == |r.done| == |done| + n
    ensures Reclaim(r.(done := r.done[..n] + done), n) == Reclaim(r, n).(done := done)
    decreases n
  {
    var r1 := r.(done := r.done[..n] + done);
    if n == 0 {
      assert r.done[..0] + done == done;
    } else {
      ReclaimUnderNic(ReclaimOne(r), n - 1, done);
      assert ReclaimOne(r1).done == ReclaimOne(r).done[..n - 1] + done;
    }
  }

  lemma FinishBuf(buf: seq<TxNotification>, head: nat, window: seq<Desc>, done: seq<bool>, k: nat)
    requires BufMatches(buf, head, window, done) && k < |window|
    ensures var slot := Slot(head + k);
            BufMatches(buf[slot := buf[slot].(signal := 0)], head, window, done[k := true])
  {
    var slot := Slot(head + k);
    var buf' := buf[slot := buf[slot].(signal := 0)];
    forall i | 0 <= i < |window|
      ensures EntryMatches(buf'[Slot(head + i)], window[i], done[k := true][i])
    {
      if i < k {
        SlotsDiffer(head, i, k);
      } else if k < i {
        SlotsDiffer(head, k, i);
      }
    }
  }

  // From r0, the NIC finishes some descriptors and then n are reclaimed.
  ghost predicate NicThenReclaim(r0: Ring, mid: Ring, n: nat, r: Ring) {
    && mid == r0.(done := mid.done)
    && NicMay(r0, mid.done)
    && CanReclaim(mid, n)
    && r == Reclaim(mid, n)
    && r.published == mid.published - n
    && r.head == mid.head + n
    && r.done == mid.done[n..]
    && |r.window| == |r.done|
  }

  // NIC progress while descriptors are being reclaimed is NIC progress before.
  lemma NicBehind(r0: Ring, mid: Ring, n: nat, r: Ring, r': Ring) returns (mid': Ring)
    requires NicThenReclaim(r0, mid, n, r) && n < mid.published
    requires r' == r.(done := r'.done) && NicMay(r, r'.done)
    ensures NicThenReclaim(r0, mid', n, r')
    ensures mid'.done[n] == r'.done[0]
  {
    ReclaimUnderNic(mid, n, r'.done);
    mid' := mid.(done := mid.done[..n] + r'.done);
    ReclaimShape(mid', n);
  }

  lemma ReclaimBehind(r0: Ring, mid: Ring, n: nat, r: Ring)
    requires NicThenReclaim(r0, mid, n, r) && n < mid.published && n < BATCH_SIZE && r.done[0]
    ensures NicThenReclaim(r0, mid, n + 1, ReclaimOne(r))
  {
    ReclaimMore(mid, n);
    ReclaimShape(mid, n + 1);
  }

  lemma SignalIsHead(buf: seq<TxNotification>, r: Ring)
    requires BufMatches(buf, r.head, r.window, r.done) && r.window != []
    ensures buf[Slot(r.head)].signal == 0 <==> r.done[0]
  {
    assert EntryMatches(buf[Slot(r.head + 0)], r.window[0], r.done[0]);
  }

  class NotificationBufPair {
    const txBuf: array<TxNotification>
    const wrapTracker: array<bv8>
    var txHead: nat
    var txTail: nat
    var unreported: nat
    // The environment: how many more polls may pass before the NIC finishes the
    // oldest descriptor. Any finite number.
    var nicPatience: nat
    ghost var ring: Ring
    ghost var end: nat  // slots published so far

    ghost predicate Matches()
      reads this`ring, txBuf, wrapTracker
    {
      && ring.published <= |ring.window|
      && BufMatches(txBuf[..], ring.head, ring.window, ring.done)
      && WrapMatches(wrapTracker[..], ring.head, ring.window)
    }

    ghost predicate Valid()
      reads this, txBuf, wrapTracker
    {
      && Matches()
      && txHead == Slot(ring.head)
      && txTail == Slot(end)
      && end == ring.head + ring.published
      && unreported == ring.unreported
    }

    constructor (tail: nat)
      requires tail < N
      ensures Valid() && ring == Ring(tail, [], [], 0, 0, 0)
      ensures fresh(txBuf) && fresh(wrapTracker)
    {
      var buf := new TxNotification[N](_ => TxNotification(0, 0, 0));
      var wrap := new bv8[N / 8](_ => 0);
      txBuf, wrapTracker := buf, wrap;
      txHead, txTail, unreported, nicPatience := tail, tail, 0, 0;
      ring := Ring(tail, [], [], 0, 0, 0);
      end := tail;
    }

    // The NIC clears the signal of the k-th published descriptor.
    method NicFinish(head: nat, k: nat)
      requires BufMatches(txBuf[..], ring.head, ring.window, ring.done) && k < ring.published <= |ring.window|
      requires head == Slot(ring.head)
      modifies txBuf, this`ring
      ensures BufMatches(txBuf[..], ring.head, ring.window, ring.done)
      ensures ring == old(ring).(done := old(ring.done)[k := true])
    {
      var slot := (head + k) % N;
      assert slot == Slot(ring.head + k);
      ghost var buf := txBuf[..];
      FinishBuf(buf, ring.head, ring.window, ring.done, k);
      txBuf[slot] := txBuf[slot].(signal := 0);
      assert txBuf[..] == buf[slot := buf[slot].(signal := 0)];
      ring := ring.(done := ring.done[k := true]);
    }

    // The NIC finishes any of the `count` published descriptors from `head` on.
    method NicStep(head: nat, count: nat)
      requires BufMatches(txBuf[..], ring.head, ring.window, ring.done) && ring.published <= |ring.window|
      requires head == Slot(ring.head) && count == ring.published
      modifies txBuf, this`nicPatience, this`ring
      ensures BufMatches(txBuf[..], ring.head, ring.window, ring.done)
      ensures ring == old(ring).(done := ring.done) && NicMay(old(ring), ring.done)
      ensures ring.published > 0 && !ring.done[0] ==> nicPatience < old(nicPatience)
    {
      if count > 0 && nicPatience == 0 {
        NicFinish(head, 0);
      }
      for k := 0 to count
        invariant BufMatches(txBuf[..], ring.head, ring.window, ring.done)
        invariant ring == old(ring).(done := ring.done) && NicMay(old(ring), ring.done)
        invariant count > 0 && nicPatience == 0 ==> ring.done[0]
        invariant nicPatience == old(nicPatience)
      {
        if * {
          NicFinish(head, k);
        }
      }
      if nicPatience == 0 {
        nicPatience := *;
      } else {
        nicPatience := nicPatience - 1;
      }
    }

    // What the NIC may do before the application looks at the signal at `head`.
    method NicPoll(head: nat, tail: nat)
      requires Matches()
      requires head == Slot(ring.head) && tail == Slot(ring.head + ring.published)
      modifies txBuf, this`nicPatience, this`ring
      ensures Matches()
      ensures ring == old(ring).(done := ring.done) && NicMay(old(ring), ring.done)
      ensures ring.published > 0 && !ring.done[0] ==> nicPatience < old(nicPatience)
    {
      DistanceExact(ring.head, ring.published);
      NicStep(head, Distance(head, tail));
    }

    // Tests and clears the bit of the oldest descriptor.
    method TakeWrapBit(head: nat) returns (wraps: bool)
      requires WrapMatches(wrapTracker[..], ring.head, ring.window) && 0 < |ring.window| < N
      requires head == Slot(ring.head)
      modifies wrapTracker
      ensures wraps == !ring.window[0].last
      ensures WrapMatches(wrapTracker[..], ring.head + 1, ring.window[1..])
    {
      ReclaimWrap(wrapTracker[..], ring.head, ring.window);
      wraps := TestBit(wrapTracker, head);
      ClearBit(wrapTracker, head);
    }

    // One turn of the reclaim loop, for a descriptor whose signal is clear.
    method ReclaimHead(head: nat) returns (next: nat)
      requires Matches() && 0 < ring.published
      requires head == Slot(ring.head) && unreported == ring.unreported
      modifies this`unreported, this`ring, wrapTracker
      ensures ring == ReclaimOne(old(ring))
      ensures Matches()
      ensures next == Slot(ring.head) && unreported == ring.unreported
    {
      ReclaimBuf(txBuf[..], ring.head, ring.window, ring.done);
      var wraps := TakeWrapBit(head);
      unreported := unreported + (if wraps then 0 else 1);
      ring := ReclaimOne(ring);
      NextSlot(ring.head - 1);
      next := Next(head);
    }

    // Looks at the signal of the oldest descriptor, after whatever the NIC did.
    method PollHead(head: nat, tail: nat, ghost r0: Ring, ghost mid0: Ring, ghost n: nat)
        returns (done: bool, ghost mid: Ring)
      requires Matches() && NicThenReclaim(r0, mid0, n, ring) && n < mid0.published
      requires head == Slot(ring.head) && tail == Slot(ring.head + ring.published)
      modifies txBuf, this`nicPatience, this`ring
      ensures Matches() && ring == old(ring).(done := ring.done) && |ring.done| == |old(ring).done|
      ensures NicThenReclaim(r0, mid, n, ring) && n < mid.published
      ensures done == ring.done[0] == mid.done[n]
      ensures !done ==> nicPatience < old(nicPatience)
    {
      ghost var before := ring;
      NicPoll(head, tail);
      mid := NicBehind(r0, mid0, n, before, ring);
      SignalIsHead(txBuf[..], ring);
      done := txBuf[head].signal == 0;
    }

    // One turn of the reclaim loop: stop at the tail or at an unfinished descriptor.
    method ReclaimTurn(head: nat, tail: nat, ghost r0: Ring, ghost mid0: Ring, ghost n0: nat)
        returns (next: nat, stop: bool, ghost mid: Ring, ghost n: nat)
      requires Matches() && unreported == ring.unreported
      requires NicThenReclaim(r0, mid0, n0, ring) && n0 < BATCH_SIZE
      requires head == Slot(ring.head) && tail == Slot(end) && end == ring.head + ring.published
      modifies this`unreported, this`nicPatience, this`ring, txBuf, wrapTracker
      ensures Matches() && unreported == ring.unreported
      ensures NicThenReclaim(r0, mid, n, ring)
      ensures next == Slot(ring.head) && end == ring.head + ring.published
      ensures n == if stop then n0 else n0 + 1
      ensures stop ==> n == mid.published || !mid.done[n]
      ensures stop && ring.published > 0 ==> nicPatience < old(nicPatience)
    {
      next, stop, mid, n := head, true, mid0, n0;
      EmptyExact(ring.head, ring.published);
      if head == tail {
        return;
      }
      var done;
      done, mid := PollHead(head, tail, r0, mid0, n0);
      if !done {
        return;
      }
      ReclaimBehind(r0, mid, n0, ring);
      next := ReclaimHead(head);
      stop, n := false, n0 + 1;
    }

    // Reclaims the finished descriptors at the head, at most a batch of them, up to
    // the published tail; counts a completion for each that ends a request.
    method UpdateTxHead() returns (ghost mid: Ring, ghost n: nat)
      requires Valid()
      modifies this`txHead, this`unreported, this`nicPatience, this`ring, txBuf, wrapTracker
      ensures Valid()
      ensures NicThenReclaim(old(ring), mid, n, ring)
      ensures Greedy(mid, n)
      ensures n == 0 && old(ring).published > 0 ==> nicPatience < old(nicPatience)
    {
      var head, tail := txHead, txTail;
      mid, n := ring, 0;
      EmptyExact(ring.head, ring.published);
      if head == tail {
        return;
      }
      var i, stop := 0, false;
      while i < BATCH_SIZE && !stop
        invariant NicThenReclaim(old(ring), mid, n, ring)
        invariant if stop then n == mid.published || !mid.done[n] else n == i <= BATCH_SIZE
        invariant Matches() && unreported == ring.unreported
        invariant head == Slot(ring.head) && end == ring.head + ring.published
        invariant n == 0 ==> if stop then nicPatience < old(nicPatience) else nicPatience == old(nicPatience)
      {
        head, stop, mid, n := ReclaimTurn(head, tail, old(ring), mid, n);
        i := i + 1;
      }
      txHead := head;
      assert Matches();
    }

    // Reclaims all it can and hands out the completions counted so far.
    method GetUnreportedCompletions() returns (completions: nat, ghost mid: Ring, ghost n: nat, ghost r: Ring)
      requires Valid()
      modifies this`txHead, this`unreported, this`nicPatience, this`ring, txBuf, wrapTracker
      ensures Valid()
      ensures NicThenReclaim(old(ring), mid, n, r) && Greedy(mid, n)
      ensures completions == r.unreported && ring == r.(unreported := 0)
      ensures completions == old(ring).unreported + CountLast(old(ring).window[..n])
      ensures n == 0 && old(ring).published > 0 ==> nicPatience < old(nicPatience)
    {
      mid, n := UpdateTxHead();
      r := ring;
      ReclaimUnreported(mid, n);
      completions := unreported;
      ResetUnreported();
    }

    method ResetUnreported()
      requires Valid()
      modifies this`unreported, this`ring
      ensures Valid() && ring == old(ring).(unreported := 0)
    {
      unreported := 0;
      ring := ring.(unreported := 0);
      assert Matches();
    }

    // Fills the descriptor at the local tail.
    method WriteSlot(tail: nat, ghost tailIndex: nat, missing: nat, addr: nat, chunk: nat) returns (next: nat)
      requires Matches() && |ring.window| < N - 1 && chunk <= missing
      requires tail == Slot(tailIndex) && tailIndex == ring.head + |ring.window|
      modifies txBuf, wrapTracker, this`ring
      ensures Matches()
      ensures ring == AppendDesc(old(ring), Desc(addr, chunk, missing == chunk, DATA_SIGNAL))
      ensures next == Slot(tailIndex + 1)
    {
      ghost var d := Desc(addr, chunk, missing == chunk, DATA_SIGNAL);
      ghost var buf := txBuf[..];
      AppendEntry(buf, ring.head, ring.window, ring.done, d, TxNotification(1, addr, chunk));
      AppendWrap(wrapTracker[..], ring.head, ring.window, d);
      if missing > chunk {
        SetBit(wrapTracker, tail);
      }
      txBuf[tail] := TxNotification(1, addr, chunk);
      assert txBuf[..] == buf[tail := TxNotification(1, addr, chunk)];
      NextSlot(tailIndex);
      next := Next(tail);
      ring := ring.(window := ring.window + [d], done := ring.done + [false]);
    }

    // The 32-bit count of free slots beyond the local tail.
    method CountFree(tail: nat, ghost tailIndex: nat) returns (freeSlots: nat)
      requires txHead == Slot(ring.head) && tail == Slot(tailIndex)
      requires ring.head <= tailIndex < ring.head + N
      ensures freeSlots == N - 1 - (tailIndex - ring.head)
    {
      FreeSlotsExact(ring.head, tailIndex - ring.head);
      freeSlots := FreeSlots(txHead, tail);
    }

    // Blocks until the ring has a free slot beyond the local tail: the steps taken
    // are NIC progress and reclaiming, and the wait ends whatever the NIC's patience.
    // There is something to wait for as long as not all of the ring is unpublished.
    method WaitForSlot(tail: nat, ghost tailIndex: nat, ghost s0: Sending, ghost todo: seq<Desc>)
      requires Valid() && tail == Slot(tailIndex) && tailIndex == ring.head + |ring.window|
      requires Leads(s0, Sending(ring, todo)) && todo != [] && |ring.window| - ring.published < RING_CAP
      modifies this`txHead, this`unreported, this`nicPatience, this`ring, txBuf, wrapTracker
      ensures Valid() && tailIndex == ring.head + |ring.window|
      ensures Leads(s0, Sending(ring, todo)) && |ring.window| < RING_CAP
      ensures SameUnpublished(old(ring), ring)
      ensures |old(ring).window| < RING_CAP ==> ring == old(ring)
    {
      var freeSlots := CountFree(tail, tailIndex);
      while freeSlots == 0
        invariant Valid() && tailIndex == ring.head + |ring.window|
        invariant Leads(s0, Sending(ring, todo)) && freeSlots == N - 1 - |ring.window|
        invariant SameUnpublished(old(ring), ring)
        invariant |old(ring).window| < RING_CAP ==> ring == old(ring)
        decreases |ring.window|, nicPatience
      {
        ghost var r := ring;
        ghost var mid, n := UpdateTxHead();
        RoomRun(s0, r, todo, mid, n, ring);
        StillUnpublished(old(ring), r, mid, n, ring);
        freeSlots := CountFree(tail, tailIndex);
      }
    }

    // One turn of the send loop: wait for a slot, then fill it.
    method SendOne(tail: nat, ghost tailIndex: nat, missing: nat, addr: nat, chunk: nat, ghost s0: Sending)
        returns (next: nat, ghost b: Ring)
      requires Valid() && tail == Slot(tailIndex) && tailIndex == ring.head + |ring.window|
      requires missing > 0 && chunk == ChunkLen(addr, missing)
      requires Leads(s0, Sending(ring, Segments(addr, missing))) && |ring.window| - ring.published < RING_CAP
      modifies this`txHead, this`unreported, this`nicPatience, this`ring, txBuf, wrapTracker
      ensures Valid() && tailIndex + 1 == ring.head + |ring.window| && next == Slot(tailIndex + 1)
      ensures Leads(s0, Sending(ring, Segments(NextAddr(addr, chunk), missing - chunk)))
      ensures SameUnpublished(old(ring), b)
      ensures ring == AppendDesc(b, Desc(addr, chunk, missing == chunk, DATA_SIGNAL))
      ensures |old(ring).window| < RING_CAP ==> b == old(ring)
    {
      WaitForSlot(tail, tailIndex, s0, Segments(addr, missing));
      b := ring;
      WriteRun(s0, ring, addr, missing);
      next := WriteSlot(tail, tailIndex, missing, addr, chunk);
    }

    // Splits one request into descriptors, blocking whenever the ring is full, and
    // publishes them all at the end. The call is a run of the send loop; if there is
    // room for all descriptors it only appends them. A request with more descriptors
    // than the ring has slots would wait for itself.
    method SendToQueue(physAddr: nat, len: nat) returns (ghost r: Ring)
      requires Valid() && ring.published == |ring.window|
      requires |Segments(physAddr, len)| <= RING_CAP
      modifies this, txBuf, wrapTracker
      ensures Valid()
      ensures Leads(Sending(old(ring), Segments(physAddr, len)), Sending(r, []))
      ensures ring == r.(published := |r.window|)
      ensures r.published <= |r.window| && r.window[r.published..] == Segments(physAddr, len)
      ensures forall i {:trigger r.window[i]} :: r.published <= i < |r.window| ==>
                txBuf[..][Slot(r.head + i)] == TxNotification(1, r.window[i].addr, r.window[i].len)
      ensures |old(ring).window| + |Segments(physAddr, len)| <= RING_CAP ==>
                Appended(old(ring), Segments(physAddr, len), r)
    {
      LeadsToItself(Sending(ring, Segments(physAddr, len)));
      var tail;
      ghost var tailIndex;
      tail, tailIndex := WriteAll(physAddr, len);
      r := ring;
      WrittenAsData(txBuf[..], r, physAddr, len);
      Publish(tail, tailIndex);
    }

    // The send loop: writes every descriptor behind the published ones.
    method WriteAll(physAddr: nat, len: nat) returns (tail: nat, ghost tailIndex: nat)
      requires Valid() && ring.published == |ring.window|
      requires |Segments(physAddr, len)| <= RING_CAP
      modifies this`txHead, this`unreported, this`nicPatience, this`ring, txBuf, wrapTracker
      ensures Valid() && tail == Slot(tailIndex) && tailIndex == ring.head + |ring.window|
      ensures Leads(Sending(old(ring), Segments(physAddr, len)), Sending(ring, []))
      ensures PartlyWritten(ring, Segments(physAddr, len), [])
      ensures |old(ring).window| + |Segments(physAddr, len)| <= RING_CAP ==>
                PartlyAppended(old(ring), Segments(physAddr, len), ring, [])
    {
      tail := txTail;
      tailIndex := end;
      ghost var all := Segments(physAddr, len);
      ghost var s0 := Sending(ring, all);
      LeadsToItself(s0);
      AppendedNothing(ring, all);
      WrittenNothing(ring, all);
      var missing: nat, addr: nat := len, physAddr;
      var base := physAddr - physAddr % BUF_PAGE_SIZE;
      var boundary := base + BUF_PAGE_SIZE;
      while missing > 0
        invariant Valid() && tail == Slot(tailIndex) && tailIndex == ring.head + |ring.window|
        invariant Leads(s0, Sending(ring, Segments(addr, missing)))
        invariant PartlyWritten(ring, all, Segments(addr, missing))
        invariant |s0.ring.window| + |all| <= RING_CAP ==> PartlyAppended(s0.ring, all, ring, Segments(addr, missing))
        invariant base <= addr < boundary && PageBase(addr) == base
        decreases missing
      {
        var chunk := NextChunk(addr, missing, boundary);
        ghost var before := ring;
        SegmentsStep(addr, missing);
        ghost var b;
        tail, b := SendOne(tail, tailIndex, missing, addr, chunk, s0);
        AppendedMore(s0.ring, all, before, addr, missing);
        WrittenMore(before, b, all, addr, missing);
        tailIndex := tailIndex + 1;
        addr := NextInPage(base, addr, chunk);
        missing := missing - chunk;
      }
      assert Segments(addr, missing) == [];
    }

    // Tells the NIC about everything up to the local tail.
    method Publish(tail: nat, ghost tailIndex: nat)
      requires Valid() && tail == Slot(tailIndex) && tailIndex == ring.head + |ring.window|
      modifies this`txTail, this`ring, this`end
      ensures Valid() && ring == old(ring).(published := |old(ring).window|)
    {
      ring := ring.(published := |ring.window|);
      end := tailIndex;
      txTail := tail;
      assert Matches();
    }

    // Sends one configuration notification and waits for a completion to be counted,
    // which it takes for that of the notification and forgets. With nothing else in the
    // ring that is what it is.
    method SendConfig(config: TxNotification) returns (ret: int, ghost r: Ring, ghost q: Ring)
      requires Valid() && ring.published == |ring.window|
      modifies this, txBuf, wrapTracker
      ensures Valid() && ret == if config.signal < 2 then -1 else 0
      ensures ret != 0 ==> ring == old(ring)
      ensures ret == 0 ==>
                && Leads(Sending(old(ring), [ConfigDesc(config)]), Sending(r, []))
                && Forgets(r.(published := |r.window|), q, ring)
      ensures ret == 0 && old(ring).window == [] && old(ring).skip == 0 ==>
                ring == old(ring).(head := old(ring).head + 1)
    {
      r, q := ring, ring;
      if config.signal < 2 {
        return -1, r, q;
      }
      r := WriteConfig(config);
      ghost var published := ring;
      q := AwaitCompletion();
      if old(ring).window == [] && old(ring).skip == 0 {
        QuietAwait(published, q);
      }
      return 0, r, q;
    }

    // Polls until the count changes, and puts the old count back.
    method AwaitCompletion() returns (ghost q: Ring)
      requires Valid() && ring.published == |ring.window| && CountLast(ring.window) > 0
      modifies this, txBuf, wrapTracker
      ensures Valid() && Forgets(old(ring), q, ring)
    {
      ghost var a := ring;
      AwaitNothing(a);
      var saved := unreported;
      while unreported == saved
        invariant Valid() && Awaited(a, ring) && ring.published == |ring.window|
        invariant ring.unreported + CountLast(ring.window) == a.unreported + CountLast(a.window)
        decreases |ring.window|, nicPatience
      {
        ghost var b := ring;
        ghost var mid, n := UpdateTxHead();
        AwaitMore(a, Poll(b, mid, n), ring);
        PollCounts(b, Poll(b, mid, n), ring);
      }
      q := ring;
      unreported := saved;
      ring := ring.(unreported := saved);
      assert Matches();
    }

    // Waits for a slot, stores the notification and publishes it.
    method WriteConfig(config: TxNotification) returns (ghost r: Ring)
      requires Valid() && ring.published == |ring.window| && config.signal != 0
      modifies this, txBuf, wrapTracker
      ensures Valid() && ring == r.(published := |r.window|) && CountLast(ring.window) > 0
      ensures |r.window| > 0 && txBuf[..][Slot(r.head + (|r.window| - 1))] == config
      ensures Leads(Sending(old(ring), [ConfigDesc(config)]), Sending(r, []))
      ensures |old(ring).window| < RING_CAP ==> r == AppendDesc(old(ring), ConfigDesc(config))
    {
      ghost var d := ConfigDesc(config);
      ghost var s0 := Sending(ring, [d]);
      LeadsToItself(s0);
      ghost var tailIndex := end;
      WaitForSlot(txTail, tailIndex, s0, [d]);
      LeadsOn(s0, Sending(ring, [d]), WriteNext);
      ConfigCounts(ring, d);
      StoreConfig(config, tailIndex);
      r := ring;
      ghost var last := |r.window| - 1;
      assert r.window[last] == d && !r.done[last];
      assert EntryMatches(txBuf[..][Slot(r.head + last)], r.window[last], r.done[last]);
      Publish(Next(txTail), tailIndex + 1);
    }

    method StoreConfig(config: TxNotification, ghost tailIndex: nat)
      requires Valid() && |ring.window| < N - 1 && config.signal != 0
      requires txTail == Slot(tailIndex) && tailIndex == ring.head + |ring.window|
      modifies txBuf, this`ring
      ensures Valid() && ring == AppendDesc(old(ring), ConfigDesc(config)) && Next(txTail) == Slot(tailIndex + 1)
    {
      ghost var buf, d := txBuf[..], ConfigDesc(config);
      AppendEntry(buf, ring.head, ring.window, ring.done, d, config);
      AppendWrap(wrapTracker[..], ring.head, ring.window, d);
      txBuf[txTail] := config;
      assert txBuf[..] == buf[txTail := config];
      NextSlot(tailIndex);
      ring := AppendDesc(ring, d);
      assert Matches();
    }
  }

  // What a configuration looks like to the ring: a request of one descriptor.
  function ConfigDesc(config: TxNotification): Desc {
    Desc(config.physAddr, config.length, true, config.signal)
  }

  lemma ConfigCounts(r: Ring, d: Desc)
    requires d.last
    ensures CountLast(AppendDesc(r, d).window) == CountLast(r.window) + 1
    ensures [d][1..] == []
  {
    CountLastAppend(r.window, [d]);
    assert CountLast([d]) == 1 + CountLast([d][1..]);
  }

  // A poll of the ring: the ring before it, what the NIC had finished then, and how much
  // was reclaimed.
  datatype Poll = Poll(from: Ring, mid: Ring, n: nat)

  ghost predicate PollOk(a: Ring, p: Poll, b: Ring) {
    a == p.from && NicThenReclaim(a, p.mid, p.n, b) && Greedy(p.mid, p.n)
  }

  // Polls that lead from a to b, of which only the last may count completions.
  ghost predicate Polls(a: Ring, ps: seq<Poll>, b: Ring) {
    if ps == [] then a == b
    else
      var p := ps[|ps| - 1];
      Polls(a, ps[..|ps| - 1], p.from) && p.from.unreported == a.unreported && PollOk(p.from, p, b)
  }

  ghost predicate Awaited(a: Ring, b: Ring) {
    exists ps: seq<Poll> :: Polls(a, ps, b)
  }

  // From a, polls lead to the first counted completions in q, and these are forgotten.
  ghost predicate Forgets(a: Ring, q: Ring, b: Ring) {
    Awaited(a, q) && q.unreported != a.unreported && b == q.(unreported := a.unreported)
  }

  lemma AwaitNothing(a: Ring)
    ensures Awaited(a, a)
  {
    assert Polls(a, [], a);
  }

  lemma AwaitMore(a: Ring, p: Poll, c: Ring)
    requires Awaited(a, p.from) && p.from.unreported == a.unreported && PollOk(p.from, p, c)
    ensures Awaited(a, c)
  {
    var ps :| Polls(a, ps, p.from);
    assert (ps + [p])[..|ps|] == ps;
    assert Polls(a, ps + [p], c);
  }

  // A poll moves completions from the ring to the counter.
  lemma PollCounts(a: Ring, p: Poll, b: Ring)
    requires PollOk(a, p, b) && a.published == |a.window| == |a.done|
    ensures b.unreported + CountLast(b.window) == a.unreported + CountLast(a.window)
    ensures a.unreported <= b.unreported && b.published == |b.window| == |b.done|
  {
    ReclaimCounts(p.mid, p.n);
    ReclaimShape(p.mid, p.n);
    ReclaimGrows(p.mid, p.n);
  }

  lemma {:induction false} PollsKeepCount(a: Ring, ps: seq<Poll>, b: Ring)
    requires Polls(a, ps, b) && a.published == |a.window| == |a.done|
    ensures b.unreported + CountLast(b.window) == a.unreported + CountLast(a.window)
    ensures a.unreported <= b.unreported && b.published == |b.window| == |b.done|
    decreases |ps|
  {
    if ps != [] {
      var p := ps[|ps| - 1];
      PollsKeepCount(a, ps[..|ps| - 1], p.from);
      PollCounts(p.from, p, b);
    }
  }

  lemma {:induction false} ReclaimGrows(r: Ring, n: nat)
    requires n <= r.published <= |r.window| == |r.done|
    ensures r.unreported <= Reclaim(r, n).unreported
    decreases n
  {
    if n != 0 {
      ReclaimGrows(ReclaimOne(r), n - 1);
    }
  }

  ghost predicate OnlyConfig(r: Ring) {
    |r.window| == |r.done| == 1 == r.published && r.window[0].last && r.skip == 0
  }

  // With one descriptor in the ring, a poll leaves it there or takes it out.
  lemma QuietPoll(a: Ring, p: Poll, b: Ring)
    requires PollOk(a, p, b) && OnlyConfig(a)
    ensures (b == a.(done := b.done) && OnlyConfig(b)) || b == Ring(a.head + 1, [], [], 0, a.unreported + 1, 0)
  {
    ConfigReclaim(p.mid, p.n, a.window[0]);
  }

  lemma {:induction false} QuietPolls(a: Ring, ps: seq<Poll>, b: Ring)
    requires Polls(a, ps, b) && OnlyConfig(a)
    ensures (b == a.(done := b.done) && OnlyConfig(b)) || b == Ring(a.head + 1, [], [], 0, a.unreported + 1, 0)
    decreases |ps|
  {
    if ps != [] {
      var p := ps[|ps| - 1];
      QuietPolls(a, ps[..|ps| - 1], p.from);
      QuietPoll(p.from, p, b);
    }
  }

  lemma QuietAwait(a: Ring, q: Ring)
    requires Awaited(a, q) && q.unreported != a.unreported && OnlyConfig(a)
    ensures q == Ring(a.head + 1, [], [], 0, a.unreported + 1, 0)
  {
    var ps :| Polls(a, ps, q);
    QuietPolls(a, ps, q);
  }

  lemma ConfigReclaim(mid: Ring, n: nat, d: Desc)
    requires CanReclaim(mid, n) && mid.window == [d] && mid.published == 1 && d.last
    ensures n == 0 ==> Reclaim(mid, n) == mid
    ensures n == 1 ==> Reclaim(mid, n) == Ring(mid.head + 1, [], [], 0, mid.unreported + 1, 0)
    ensures n <= 1
  {
    assert mid.window[1..] == [] && mid.done[1..] == [];
    if n == 1 {
      assert Reclaim(ReclaimOne(mid), 0) == ReclaimOne(mid);
    }
  }

  // The size of the next transfer: what is missing, a whole transfer, or up to the page end.
  function NextChunk(addr: nat, missing: nat, boundary: nat): (chunk: nat)
    requires boundary == PageBase(addr) + BUF_PAGE_SIZE
    ensures chunk == ChunkLen(addr, missing)
  {
    Min(Min(missing, MAX_TRANSFER_LEN), boundary - addr)
  }

  // The next address of the transfer, wrapping in the page.
  function NextInPage(base: nat, addr: nat, chunk: nat): (next: nat)
    requires PageBase(addr) == base && chunk <= BUF_PAGE_SIZE - addr % BUF_PAGE_SIZE
    ensures next == NextAddr(addr, chunk)
    ensures base <= next < base + BUF_PAGE_SIZE && PageBase(next) == base
  {
    NextAddrFacts(addr, chunk);
    base + (addr + chunk) % BUF_PAGE_SIZE
  }

  lemma SegmentsStep(addr: nat, missing: nat)
    requires missing > 0
    ensures var chunk := ChunkLen(addr, missing);
            Segments(addr, missing) == [Desc(addr, chunk, missing == chunk, DATA_SIGNAL)] + Segments(NextAddr(addr, chunk), missing - chunk)
  {
  }

  // Nothing was added or finished behind the published descriptors.
  ghost predicate SameUnpublished(r0: Ring, r: Ring) {
    && r0.published <= |r0.window| == |r0.done| && r.published <= |r.window| == |r.done|
    && r.window[r.published..] == r0.window[r0.published..]
    && r.done[r.published..] == r0.done[r0.published..]
  }

  lemma StillUnpublished(r0: Ring, b: Ring, mid: Ring, n: nat, r: Ring)
    requires SameUnpublished(r0, b) && NicThenReclaim(b, mid, n, r)
    ensures SameUnpublished(r0, r)
  {
    ReclaimShape(mid, n);
    assert mid.done[b.published..] == b.done[b.published..];
    assert r.window[r.published..] == b.window[b.published..];
    assert r.done[r.published..] == mid.done[b.published..];
  }

  // Behind the published descriptors are those of ds, unfinished, up to the `rest` that is
  // still to be written.
  ghost predicate PartlyWritten(r: Ring, ds: seq<Desc>, rest: seq<Desc>) {
    && |rest| <= |ds| && ds[|ds| - |rest|..] == rest
    && r.published <= |r.window| == |r.done|
    && r.window[r.published..] == ds[..|ds| - |rest|]
    && forall i :: r.published <= i < |r.done| ==> !r.done[i]
  }

  lemma WrittenNothing(r: Ring, ds: seq<Desc>)
    requires r.published == |r.window| == |r.done|
    ensures PartlyWritten(r, ds, ds)
  {
  }

  lemma WrittenMore(r0: Ring, b: Ring, ds: seq<Desc>, addr: nat, missing: nat)
    requires missing > 0 && PartlyWritten(r0, ds, Segments(addr, missing)) && SameUnpublished(r0, b)
    ensures var chunk := ChunkLen(addr, missing);
            PartlyWritten(AppendDesc(b, Desc(addr, chunk, missing == chunk, DATA_SIGNAL)), ds,
                          Segments(NextAddr(addr, chunk), missing - chunk))
  {
    var chunk := ChunkLen(addr, missing);
    var d := Desc(addr, chunk, missing == chunk, DATA_SIGNAL);
    var r := AppendDesc(b, d);
    SegmentsStep(addr, missing);
    var k := |ds| - |Segments(addr, missing)|;
    assert ds[k] == d && ds[k + 1..] == Segments(NextAddr(addr, chunk), missing - chunk);
    assert r.window[r.published..] == b.window[b.published..] + [d] == ds[..k] + [d] == ds[..k + 1];
    forall i | r.published <= i < |r.done| ensures !r.done[i] {
      if i < |b.done| {
        assert b.done[i] == b.done[b.published..][i - b.published] == r0.done[r0.published..][i - b.published];
      }
    }
  }

  // The slots of the unpublished descriptors hold them, marked as data.
  lemma WrittenAsData(buf: seq<TxNotification>, r: Ring, addr: nat, len: nat)
    requires BufMatches(buf, r.head, r.window, r.done) && PartlyWritten(r, Segments(addr, len), [])
    ensures r.window[r.published..] == Segments(addr, len)
    ensures forall i {:trigger r.window[i]} :: r.published <= i < |r.window| ==>
              buf[Slot(r.head + i)] == TxNotification(1, r.window[i].addr, r.window[i].len)
  {
    var ds := Segments(addr, len);
    assert ds[..|ds|] == ds;
    SegmentsShape(addr, len);
    forall i {:trigger r.window[i]} | r.published <= i < |r.window|
      ensures buf[Slot(r.head + i)] == TxNotification(1, r.window[i].addr, r.window[i].len)
    {
      assert r.window[i] == r.window[r.published..][i - r.published] == ds[i - r.published];
      assert EntryMatches(buf[Slot(r.head + i)], r.window[i], r.done[i]);
    }
  }

  // r is r0 with the descriptors ds behind the others, unfinished and unpublished.
  ghost predicate Appended(r0: Ring, ds: seq<Desc>, r: Ring) {
    && r == r0.(window := r0.window + ds, done := r.done)
    && |r.done| == |r0.done| + |ds| && r0.done <= r.done
    && forall i :: |r0.done| <= i < |r.done| ==> !r.done[i]
  }

  // The same while the descriptors `rest` at the end of ds are still missing.
  ghost predicate PartlyAppended(r0: Ring, ds: seq<Desc>, r: Ring, rest: seq<Desc>) {
    |rest| <= |ds| && ds[|ds| - |rest|..] == rest && Appended(r0, ds[..|ds| - |rest|], r)
  }

  lemma AppendedNothing(r: Ring, ds: seq<Desc>)
    ensures PartlyAppended(r, ds, r, ds)
  {
    assert r.window + [] == r.window;
  }

  lemma AppendedMore(r0: Ring, ds: seq<Desc>, r: Ring, addr: nat, missing: nat)
    requires missing > 0
    ensures var chunk := ChunkLen(addr, missing);
            PartlyAppended(r0, ds, r, Segments(addr, missing)) ==>
              PartlyAppended(r0, ds, AppendDesc(r, Desc(addr, chunk, missing == chunk, DATA_SIGNAL)),
                             Segments(NextAddr(addr, chunk), missing - chunk))
  {
    var chunk := ChunkLen(addr, missing);
    var rest, rest' := Segments(addr, missing), Segments(NextAddr(addr, chunk), missing - chunk);
    SegmentsStep(addr, missing);
    if PartlyAppended(r0, ds, r, rest) {
      var k := |ds| - |rest|;
      assert ds[k] == rest[0] && ds[k + 1..] == rest';
      assert ds[..k + 1] == ds[..k] + [ds[k]];
      assert r0.window + ds[..k + 1] == r0.window + ds[..k] + [ds[k]];
    }
  }

  lemma WriteRun(s0: Sending, r: Ring, addr: nat, missing: nat)
    requires Leads(s0, Sending(r, Segments(addr, missing))) && missing > 0 && |r.window| < RING_CAP
    ensures var chunk := ChunkLen(addr, missing);
            Leads(s0, Sending(AppendDesc(r, Desc(addr, chunk, missing == chunk, DATA_SIGNAL)),
                              Segments(NextAddr(addr, chunk), missing - chunk)))
  {
    LeadsOn(s0, Sending(r, Segments(addr, missing)), WriteNext);
    SegmentsStep(addr, missing);
  }

  // NIC progress followed by reclaiming is two turns of the send loop.
  lemma RoomRun(s0: Sending, r0: Ring, todo: seq<Desc>, mid: Ring, n: nat, r: Ring)
    requires Leads(s0, Sending(r0, todo)) && todo != [] && |r0.window| == RING_CAP
    requires NicThenReclaim(r0, mid, n, r) && Greedy(mid, n)
    ensures Leads(s0, Sending(r, todo))
  {
    LeadsOn(s0, Sending(r0, todo), NicFinishes(mid.done));
    LeadsOn(s0, Sending(mid, todo), MakeRoom(n));
  }
}
