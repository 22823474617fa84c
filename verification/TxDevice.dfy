// The device and its pipes: the pending-request ring with 32-bit masked indices, the
// byte indices of every TX pipe modulo the page, and the RX/TX pipes that give RX
// space back when TX capacity grows. The ghost state `st` is always a reachable state
// of TxProtocol.
module TxDevice {
  import opened Consts
  import opened Segmentation
  import P = TxProtocol
  import opened TxSafety
  import opened TxTheorems
  import opened TxQueue
  import opened RingIndex
  import opened Flits

  datatype TxPendingRequest = TxPendingRequest(pipeId: nat, nbBytes: nat)

  // A difference of 32-bit values under a mask of ring size - 1.
  function Masked(diff: int, size: nat): nat
    requires size > 0
  {
    (diff % U32) % size
  }

  lemma MaskedPage(diff: int)
    ensures Masked(diff, BUF_PAGE_SIZE) == diff % BUF_PAGE_SIZE
  {
  }

  lemma MaskedRing(head: nat, count: nat)
    requires count < N
    ensures Masked(Slot(head + count) - Slot(head), N) == count
  {
  }

  // The slots of the pending ring from the popped count on hold the recorded requests.
  ghost predicate PendingMatches(buf: seq<TxPendingRequest>, popped: nat, pending: seq<P.Request>) {
    && |buf| == N
    && |pending| < N
    && forall i :: 0 <= i < |pending| ==>
         buf[Slot(popped + i)] == TxPendingRequest(pending[i].pipe, pending[i].len)
  }

  lemma PopPending(buf: seq<TxPendingRequest>, popped: nat, pending: seq<P.Request>)
    requires PendingMatches(buf, popped, pending) && pending != []
    ensures PendingMatches(buf, popped + 1, pending[1..])
    ensures buf[Slot(popped)] == TxPendingRequest(pending[0].pipe, pending[0].len)
  {
    assert buf[Slot(popped + 0)] == TxPendingRequest(pending[0].pipe, pending[0].len);
    forall i | 0 <= i < |pending| - 1
      ensures buf[Slot(popped + 1 + i)] == TxPendingRequest(pending[1..][i].pipe, pending[1..][i].len)
    {
      assert buf[Slot(popped + (i + 1))] == TxPendingRequest(pending[i + 1].pipe, pending[i + 1].len);
    }
  }

  lemma PushPending(buf: seq<TxPendingRequest>, popped: nat, pending: seq<P.Request>, q: P.Request)
    requires PendingMatches(buf, popped, pending) && |pending| < N - 1
    ensures PendingMatches(buf[Slot(popped + |pending|) := TxPendingRequest(q.pipe, q.len)], popped, pending + [q])
  {
    var buf' := buf[Slot(popped + |pending|) := TxPendingRequest(q.pipe, q.len)];
    forall i | 0 <= i < |pending| + 1
      ensures buf'[Slot(popped + i)] == TxPendingRequest((pending + [q])[i].pipe, (pending + [q])[i].len)
    {
      if i < |pending| {
        SlotsDiffer(popped, i, |pending|);
      }
    }
  }

  class TxPipe {
    const id: nat
    const bufPhysAddr: nat
    var appBegin: nat
    var appEnd: nat

    constructor (id: nat, bufPhysAddr: nat)
      ensures this.id == id && this.bufPhysAddr == bufPhysAddr && appBegin == 0 && appEnd == 0
    {
      this.id, this.bufPhysAddr, appBegin, appEnd := id, bufPhysAddr, 0, 0;
    }

    // The wrapped indices stand for the unbounded counters of the protocol's pipe.
    ghost predicate Refines(p: P.Pipe)
      reads this
    {
      && bufPhysAddr == p.page * BUF_PAGE_SIZE
      && appBegin == p.sent % BUF_PAGE_SIZE
      && appEnd == p.completed % BUF_PAGE_SIZE
    }

    method Capacity(ghost p: P.Pipe) returns (c: nat)
      requires Refines(p)
      ensures c == P.Capacity(p)
    {
      MaskedPage(appEnd - appBegin - 1);
      c := Masked(appEnd - appBegin - 1, BUF_PAGE_SIZE);
    }

    method NotifyCompletion(nbBytes: nat, ghost p: P.Pipe)
      requires Refines(p)
      modifies this`appEnd
      ensures Refines(p.(completed := p.completed + nbBytes))
    {
      appEnd := (appEnd + nbBytes) % BUF_PAGE_SIZE;
    }

    method AdvanceBegin(nbBytes: nat, ghost p: P.Pipe)
      requires Refines(p)
      modifies this`appBegin
      ensures Refines(p.(sent := p.sent + nbBytes))
    {
      appBegin := (appBegin + nbBytes) % BUF_PAGE_SIZE;
    }

    // Sends the first bytes of the application's buffer and moves the buffer past them.
    method SendAndFree(dev: Device, nbBytes: nat)
      requires dev.CoreValid() && dev.st.phase.Idle?
      requires id < |dev.txPipes| && dev.txPipes[id] == this
      requires 0 < nbBytes <= P.Capacity(dev.st.pipes[id]) && nbBytes % FLIT == 0
      requires dev.RxTxBalanced(P.BeginSend(dev.st, id, nbBytes))
      modifies dev, dev.pendingRing, dev.nbp, dev.nbp.txBuf, dev.nbp.wrapTracker, dev.txPipes, dev.rxTxPipes
      ensures dev.Valid() && dev.st.phase.Idle?
      ensures dev.st.sent == old(dev.st).sent + [P.NewRequest(old(dev.st), id, nbBytes)]
      ensures |old(dev.st).pending| < MAX_PENDING_TX_REQUESTS - 2 ==>
                SentAtOnce(P.BeginSend(old(dev.st), id, nbBytes), dev.st) && dev.RxTxUntouched()
      ensures dev.RxTxOnlyFreed()
    {
      var physAddr := bufPhysAddr + appBegin;
      PhysAddrOf(dev.st.pipes[id]);
      dev.BeginTransmission(this, nbBytes);
      dev.Send(id, physAddr, nbBytes);
    }

    // Best-effort extension: process the completions there are, all of them up to a batch.
    method TryExtendBuf(dev: Device) returns (capacity: nat, ghost mid: P.Ring, ghost n: nat)
      requires dev.Valid() && dev.st.phase.Idle?
      requires id < |dev.txPipes| && dev.txPipes[id] == this
      modifies dev`prHead, dev`st, dev.nbp, dev.nbp.txBuf, dev.nbp.wrapTracker, dev.txPipes, dev.rxTxPipes
      ensures dev.Valid() && dev.st.phase.Idle? && dev.st.sent == old(dev.st).sent
      ensures Processed(old(dev.st), mid, n, dev.st)
      ensures id < |dev.st.pipes| == |old(dev.st).pipes| && capacity == P.Capacity(dev.st.pipes[id])
      ensures capacity >= P.Capacity(old(dev.st).pipes[id])
      ensures |dev.st.ring.window| <= |old(dev.st).ring.window|
      ensures old(dev.st).ring.published > 0 ==>
                |dev.st.ring.window| < |old(dev.st).ring.window| || dev.nbp.nicPatience < old(dev.nbp.nicPatience)
    {
      ghost var s := dev.st;
      mid, n := dev.ProcessCompletions();
      ProcessFrame(s, mid, n);
      CapacityGrows(s, dev.st, id);
      capacity := Capacity(dev.st.pipes[id]);
    }

    // Blocks until the capacity reaches the target; with a target of at most the
    // maximum capacity it always does, whatever the NIC's patience. It looks for
    // completions only while the capacity is below the target: `last` is the state before
    // the last look.
    method ExtendBufToTarget(dev: Device, target: nat) returns (capacity: nat, ghost last: P.Tx)
      requires dev.Valid() && dev.st.phase.Idle? && target <= MAX_CAPACITY
      requires id < |dev.txPipes| && dev.txPipes[id] == this
      modifies dev`prHead, dev`st, dev.nbp, dev.nbp.txBuf, dev.nbp.wrapTracker, dev.txPipes, dev.rxTxPipes
      ensures dev.Valid() && dev.st.phase.Idle? && dev.st.sent == old(dev.st).sent
      ensures id < |dev.st.pipes| && target <= capacity == P.Capacity(dev.st.pipes[id])
      ensures P.Capacity(old(dev.st).pipes[id]) >= target ==>
                dev.st == old(dev.st) && dev.nbp.nicPatience == old(dev.nbp.nicPatience)
      ensures P.Capacity(old(dev.st).pipes[id]) < target ==>
                && id < |last.pipes| && P.Capacity(last.pipes[id]) < target
                && exists mid: P.Ring, n: nat :: Processed(last, mid, n, dev.st)
    {
      last := dev.st;
      capacity := Capacity(dev.st.pipes[id]);
      while capacity < target
        invariant dev.Valid() && dev.st.phase.Idle? && dev.st.sent == old(dev.st).sent
        invariant capacity == P.Capacity(dev.st.pipes[id])
        invariant (dev.st == old(dev.st) && dev.nbp.nicPatience == old(dev.nbp.nicPatience))
               || (&& P.Capacity(old(dev.st).pipes[id]) < target && id < |last.pipes| && P.Capacity(last.pipes[id]) < target
                   && exists mid: P.Ring, n: nat :: Processed(last, mid, n, dev.st))
        decreases |dev.st.ring.window|, dev.nbp.nicPatience
      {
        CapacityComesBack(dev.st, id);
        last := dev.st;
        ghost var mid, n;
        capacity, mid, n := TryExtendBuf(dev);
      }
    }
  }

  lemma PhysAddrOf(p: P.Pipe)
    ensures p.page * BUF_PAGE_SIZE + p.sent % BUF_PAGE_SIZE == P.AppByte(p, 0)
  {
  }

  lemma CapacityGrows(s: P.Tx, t: P.Tx, p: nat)
    requires P.Reachable(s) && P.Reachable(t) && p < |s.pipes| == |t.pipes|
    requires t.pipes[p].sent == s.pipes[p].sent && t.pipes[p].completed >= s.pipes[p].completed
    ensures P.Capacity(t.pipes[p]) >= P.Capacity(s.pipes[p])
  {
    PipeBounds(s, p);
    PipeBounds(t, p);
    CapacityValue(s.pipes[p]);
    CapacityValue(t.pipes[p]);
  }

  // A pipe whose received bytes are sent back in place. RX space may be given back to
  // the NIC only for bytes whose transmission completed.
  class RxTxPipe {
    const txId: nat
    var lastTxPipeCapacity: nat
    var rxHead: nat
    ghost var confirmed: nat  // bytes received and confirmed
    ghost var freed: nat  // bytes given back to the NIC
    ghost var debit: nat  // bytes of a send in progress, not yet taken off the last capacity

    constructor (txId: nat)
      ensures this.txId == txId && confirmed == 0 && freed == 0 && debit == 0
      ensures lastTxPipeCapacity == BUF_PAGE_SIZE - 1 && rxHead == 0
    {
      this.txId, lastTxPipeCapacity, rxHead := txId, BUF_PAGE_SIZE - 1, 0;
      confirmed, freed, debit := 0, 0, 0;
    }

    // What the last capacity stands for: the free part of the page as it was when RX
    // space was last given back, plus the send in progress. Only confirmed bytes are
    // sent, and only completed ones given back.
    ghost predicate Balanced(p: P.Pipe)
      reads this
    {
      && lastTxPipeCapacity + p.sent == BUF_PAGE_SIZE - 1 + freed + debit
      && freed <= p.completed && p.sent <= confirmed <= freed + MAX_CAPACITY
      && debit <= p.sent
      && freed % FLIT == 0 && debit % FLIT == 0
      && rxHead == (freed / FLIT) % ENSO_PIPE_SIZE
    }

    method Free(nbBytes: nat)
      requires nbBytes % FLIT == 0 && nbBytes < U32 && freed % FLIT == 0
      requires rxHead == (freed / FLIT) % ENSO_PIPE_SIZE
      modifies this`rxHead, this`freed
      ensures freed == old(freed) + nbBytes
      ensures freed % FLIT == 0 && rxHead == (freed / FLIT) % ENSO_PIPE_SIZE
    {
      AdvanceWhole(nbBytes);
      HeadMoves(freed, nbBytes);
      rxHead := (rxHead + AdvanceFlits(nbBytes)) % ENSO_PIPE_SIZE;
      freed := freed + nbBytes;
    }

    // Gives back exactly the completed bytes not given back before, except that while
    // a send is in progress as many as it sends are withheld.
    method ProcessCompletions(tx: TxPipe, ghost p: P.Pipe)
      requires tx.Refines(p) && Balanced(p)
      requires p.completed <= p.sent < p.completed + BUF_PAGE_SIZE && p.completed % FLIT == 0
      modifies this`lastTxPipeCapacity, this`rxHead, this`freed
      ensures Balanced(p)
      ensures freed == if p.completed > old(freed) + debit then p.completed - debit else old(freed)
    {
      var newCapacity := tx.Capacity(p);
      CapacityValue(p);
      if newCapacity > lastTxPipeCapacity {
        assert newCapacity - lastTxPipeCapacity == p.completed - debit - freed;
        assert (newCapacity - lastTxPipeCapacity) % FLIT == 0 by {
          WholeFlits(p.completed, debit, freed);
        }
        Free(newCapacity - lastTxPipeCapacity);
        lastTxPipeCapacity := newCapacity;
      }
    }

    // Confirms bytes the NIC wrote; it never writes further than the space it was given.
    method ConfirmBytes(nbBytes: nat, ghost p: P.Pipe)
      requires Balanced(p) && confirmed + nbBytes <= freed + MAX_CAPACITY
      modifies this`confirmed
      ensures Balanced(p) && confirmed == old(confirmed) + nbBytes && freed == old(freed)
    {
      confirmed := confirmed + nbBytes;
    }

    // Sends bytes that were received and confirmed. Completions processed while the
    // send blocks find the last capacity not yet reduced; the debit accounts for it.
    method SendAndFree(dev: Device, k: nat, nbBytes: nat)
      requires dev.Valid() && dev.st.phase.Idle?
      requires k < |dev.rxTxPipes| && dev.rxTxPipes[k] == this && debit == 0
      requires nbBytes > 0 && nbBytes % FLIT == 0
      requires dev.st.pipes[txId].sent + nbBytes <= confirmed
      modifies dev, dev.pendingRing, dev.nbp, dev.nbp.txBuf, dev.nbp.wrapTracker, dev.txPipes, dev.rxTxPipes
      ensures dev.Valid() && dev.st.phase.Idle? && debit == 0
      ensures dev.st.sent == old(dev.st).sent + [P.NewRequest(old(dev.st), txId, nbBytes)]
      ensures old(freed) <= freed <= dev.st.pipes[txId].completed && confirmed == old(confirmed)
      ensures dev.st.pipes[txId].sent == old(dev.st).pipes[txId].sent + nbBytes
      ensures |old(dev.st).pending| < MAX_PENDING_TX_REQUESTS - 2 ==>
                && SentAtOnce(P.BeginSend(old(dev.st), txId, nbBytes), dev.st)
                && freed == old(freed) && lastTxPipeCapacity == old(lastTxPipeCapacity) - nbBytes
    {
      ghost var s := dev.st;
      PipeBounds(s, txId);
      CapacityValue(s.pipes[txId]);
      dev.OpenDebit(k, nbBytes);
      dev.txPipes[txId].SendAndFree(dev, nbBytes);
      SentAfter(s, dev.st, txId, nbBytes);
      dev.CloseDebit(k, nbBytes);
    }
  }

  lemma SentAfter(s: P.Tx, t: P.Tx, p: nat, len: nat)
    requires P.Reachable(s) && P.Reachable(t) && p < |s.pipes| && p < |t.pipes|
    requires t.sent == s.sent + [P.NewRequest(s, p, len)]
    ensures t.pipes[p].sent == s.pipes[p].sent + len
  {
    SentBytes(s, p);
    SentBytes(t, p);
    assert t.sent[..|s.sent|] == s.sent;
  }

  lemma WholeFlits(a: nat, b: nat, c: nat)
    requires a % FLIT == 0 && b % FLIT == 0 && c % FLIT == 0
    ensures (a - b - c) % FLIT == 0
  {
  }

  class Device {
    const nbp: NotificationBufPair
    const txPipes: seq<TxPipe>
    const rxTxPipes: seq<RxTxPipe>
    const pendingRing: array<TxPendingRequest>
    var prHead: nat
    var prTail: nat
    ghost var st: P.Tx

    ghost predicate PipesRefine(s: P.Tx)
      reads txPipes
    {
      && |txPipes| == |s.pipes|
      && forall i :: 0 <= i < |txPipes| ==> txPipes[i].id == i && txPipes[i].Refines(s.pipes[i])
    }

    ghost predicate RxTxBalanced(s: P.Tx)
      reads rxTxPipes
    {
      && (forall j :: 0 <= j < |rxTxPipes| ==>
            rxTxPipes[j].txId < |s.pipes| && rxTxPipes[j].Balanced(s.pipes[rxTxPipes[j].txId]))
      && (forall i, j :: 0 <= i < j < |rxTxPipes| ==> rxTxPipes[i].txId != rxTxPipes[j].txId)
    }

    // The pending ring, with `s` the state whose recorded requests it holds.
    ghost predicate RingRefines(s: P.Tx)
      reads this`prHead, this`prTail, pendingRing
    {
      && PendingMatches(pendingRing[..], |s.reported|, s.pending)
      && prHead == Slot(|s.reported|)
      && prTail == Slot(|s.reported| + |s.pending|)
    }

    ghost predicate CoreValid()
      reads this, nbp, nbp.txBuf, nbp.wrapTracker, txPipes, pendingRing
    {
      && nbp.Valid()
      && nbp.ring == st.ring
      && P.Reachable(st)
      && PipesRefine(st)
      && RingRefines(st)
    }

    ghost predicate Valid()
      reads this, nbp, nbp.txBuf, nbp.wrapTracker, txPipes, rxTxPipes, pendingRing
    {
      CoreValid() && RxTxBalanced(st)
    }

    // A device that has allocated pipes, each with a page of its own, and sent nothing.
    constructor (nbp: NotificationBufPair, txPipes: seq<TxPipe>, rxTxPipes: seq<RxTxPipe>, ghost pages: seq<nat>)
      requires nbp.Valid() && nbp.ring == P.Init(pages, nbp.ring.head).ring
      requires |pages| == |txPipes| && P.Distinct(pages)
      requires forall i :: 0 <= i < |txPipes| ==>
                 txPipes[i].id == i && txPipes[i].Refines(P.Pipe(pages[i], 0, 0))
      requires forall j :: 0 <= j < |rxTxPipes| ==>
                 rxTxPipes[j].txId < |pages| && rxTxPipes[j].Balanced(P.Pipe(pages[rxTxPipes[j].txId], 0, 0))
      requires forall i, j :: 0 <= i < j < |rxTxPipes| ==> rxTxPipes[i].txId != rxTxPipes[j].txId
      ensures Valid() && st == P.Init(pages, nbp.ring.head)
    {
      var ring := new TxPendingRequest[N](_ => TxPendingRequest(0, 0));
      this.nbp, this.txPipes, this.rxTxPipes, pendingRing := nbp, txPipes, rxTxPipes, ring;
      prHead, prTail := 0, 0;
      st := P.Init(pages, nbp.ring.head);
      P.ReachableInit(pages, nbp.ring.head);
    }

    // One turn of the completion loop: the popped slot names the pipe and the bytes of
    // the oldest recorded request.
    method PopCompletion(ghost s: P.Tx)
      requires s.ring.unreported > 0 && s.pending != [] && s.pending[0].pipe < |s.pipes|
      requires PipesRefine(s) && RingRefines(s)
      modifies this`prHead, txPipes
      ensures PipesRefine(P.ReportOne(s)) && RingRefines(P.ReportOne(s))
    {
      PopPending(pendingRing[..], |s.reported|, s.pending);
      var req := pendingRing[prHead];
      NextSlot(|s.reported|);
      prHead := Next(prHead);
      ghost var p := s.pipes[req.pipeId];
      txPipes[req.pipeId].NotifyCompletion(req.nbBytes, p);
    }

    // Pops as many requests as there are completions, oldest first.
    method PopCompletions(completions: nat, ghost s0: P.Tx)
      requires completions == s0.ring.unreported && !P.ReportAll(s0).fault
      requires PipesRefine(s0) && RingRefines(s0)
      modifies this`prHead, txPipes
      ensures PipesRefine(P.ReportAll(s0)) && RingRefines(P.ReportAll(s0))
    {
      ghost var s := s0;
      for i := 0 to completions
        invariant s.ring.unreported == completions - i
        invariant P.ReportAll(s) == P.ReportAll(s0)
        invariant PipesRefine(s) && RingRefines(s)
      {
        PopIsRecorded(s);
        PopCompletion(s);
        s := P.ReportOne(s);
      }
    }

    // Lets every RX/TX pipe give back the RX space of completed transmissions.
    method NotifyRxTxPipes(ghost s: P.Tx)
      requires PipesRefine(s) && RxTxBalanced(s) && P.Reachable(s)
      modifies rxTxPipes
      ensures RxTxBalanced(s)
      ensures forall j :: 0 <= j < |rxTxPipes| ==>
                && rxTxPipes[j].debit == old(rxTxPipes[j].debit)
                && rxTxPipes[j].confirmed == old(rxTxPipes[j].confirmed)
                && rxTxPipes[j].freed == FreedAfter(old(rxTxPipes[j].freed), rxTxPipes[j].debit,
                                                    s.pipes[rxTxPipes[j].txId].completed)
    {
      for k := 0 to |rxTxPipes|
        invariant RxTxBalanced(s)
        invariant forall j :: 0 <= j < |rxTxPipes| ==>
                    rxTxPipes[j].debit == old(rxTxPipes[j].debit) && rxTxPipes[j].confirmed == old(rxTxPipes[j].confirmed)
        invariant forall j :: 0 <= j < k ==>
                    rxTxPipes[j].freed == FreedAfter(old(rxTxPipes[j].freed), rxTxPipes[j].debit,
                                                     s.pipes[rxTxPipes[j].txId].completed)
        invariant forall j :: k <= j < |rxTxPipes| ==> rxTxPipes[j].freed == old(rxTxPipes[j].freed)
      {
        NotifyOne(k, s);
      }
    }

    method NotifyOne(k: nat, ghost s: P.Tx)
      requires PipesRefine(s) && RxTxBalanced(s) && P.Reachable(s) && k < |rxTxPipes|
      modifies rxTxPipes[k]
      ensures RxTxBalanced(s)
      ensures rxTxPipes[k].debit == old(rxTxPipes[k].debit) && rxTxPipes[k].confirmed == old(rxTxPipes[k].confirmed)
      ensures rxTxPipes[k].freed == FreedAfter(old(rxTxPipes[k].freed), rxTxPipes[k].debit,
                                               s.pipes[rxTxPipes[k].txId].completed)
    {
      var pipe := rxTxPipes[k];
      PipeBounds(s, pipe.txId);
      pipe.ProcessCompletions(txPipes[pipe.txId], s.pipes[pipe.txId]);
    }

    // Attributes the completions to their pipes, first in first out, and frees RX space.
    method ProcessCompletions() returns (ghost mid: P.Ring, ghost n: nat)
      requires Valid() && MayProcess(st)
      modifies this`prHead, this`st, nbp, nbp.txBuf, nbp.wrapTracker, txPipes, rxTxPipes
      ensures Valid()
      ensures Processed(old(st), mid, n, st)
      ensures n == 0 && old(st).ring.published > 0 ==> nbp.nicPatience < old(nbp.nicPatience)
      ensures forall j :: 0 <= j < |rxTxPipes| ==>
                && rxTxPipes[j].debit == old(rxTxPipes[j].debit)
                && rxTxPipes[j].confirmed == old(rxTxPipes[j].confirmed)
                && rxTxPipes[j].freed == FreedAfter(old(rxTxPipes[j].freed), rxTxPipes[j].debit,
                                                    st.pipes[rxTxPipes[j].txId].completed)
    {
      var completions;
      ghost var s, t;
      completions, mid, n, s, t := FetchCompletions();
      HandOut(completions, s, t);
    }

    // Takes the completions from the ring. They are to be handed out in s, which leads to t.
    method FetchCompletions() returns (completions: nat, ghost mid: P.Ring, ghost n: nat, ghost s: P.Tx, ghost t: P.Tx)
      requires nbp.Valid() && nbp.ring == st.ring && P.Reachable(st) && MayProcess(st)
      modifies nbp, nbp.txBuf, nbp.wrapTracker
      ensures nbp.Valid() && nbp.ring == s.ring.(unreported := 0)
      ensures s == st.(ring := s.ring) && completions == s.ring.unreported
      ensures t == P.ReportAll(s) && P.Reachable(t) && !t.fault && Processed(st, mid, n, t)
      ensures n == 0 && st.ring.published > 0 ==> nbp.nicPatience < old(nbp.nicPatience)
    {
      ghost var r;
      completions, mid, n, r := nbp.GetUnreportedCompletions();
      s := st.(ring := r);
      t := ProcessRun(st, mid, n, r);
    }

    // Hands the completions out, to the pipes of the oldest recorded requests and to the
    // RX/TX pipes.
    method HandOut(completions: nat, ghost s: P.Tx, ghost t: P.Tx)
      requires nbp.Valid() && nbp.ring == s.ring.(unreported := 0)
      requires s == st.(ring := s.ring) && completions == s.ring.unreported
      requires t == P.ReportAll(s) && P.Reachable(t) && !t.fault
      requires PipesRefine(st) && RingRefines(st) && RxTxBalanced(st)
      modifies this`prHead, this`st, txPipes, rxTxPipes
      ensures Valid() && st == t
      ensures forall j :: 0 <= j < |rxTxPipes| ==>
                && rxTxPipes[j].debit == old(rxTxPipes[j].debit)
                && rxTxPipes[j].confirmed == old(rxTxPipes[j].confirmed)
                && rxTxPipes[j].freed == FreedAfter(old(rxTxPipes[j].freed), rxTxPipes[j].debit,
                                                    t.pipes[rxTxPipes[j].txId].completed)
    {
      PopCompletions(completions, s);
      ReportAllFrame(s);
      NotifyRxTxPipes(t);
      st := t;
    }

    // How many requests are recorded, by the masked 32-bit difference of the indices.
    method CountPending() returns (count: nat)
      requires RingRefines(st)
      ensures count == |st.pending|
    {
      MaskedRing(|st.reported|, |st.pending|);
      count := Masked(prTail - prHead, N);
    }

    // Stores the request at the tail of the pending ring.
    method RecordPending(pipeId: nat, nbBytes: nat)
      requires RingRefines(st) && |st.pending| < P.RECORD_LIMIT
      requires st.phase.Recording? && st.phase.req.pipe == pipeId && st.phase.req.len == nbBytes
      modifies this`prTail, pendingRing
      ensures RingRefines(P.RecordRequest(st))
    {
      ghost var buf := pendingRing[..];
      ghost var tailIndex := |st.reported| + |st.pending|;
      PushPending(buf, |st.reported|, st.pending, st.phase.req);
      pendingRing[prTail] := TxPendingRequest(pipeId, nbBytes);
      assert pendingRing[..] == buf[Slot(tailIndex) := TxPendingRequest(pipeId, nbBytes)];
      NextSlot(tailIndex);
      prTail := Next(prTail);
    }

    // Blocks until the pending ring has room for the request. Completions processed
    // here are of earlier requests only: the published one is not recorded yet.
    method WaitForRecord()
      requires Valid() && st.phase.Recording?
      modifies this`prHead, this`st, nbp, nbp.txBuf, nbp.wrapTracker, txPipes, rxTxPipes
      ensures Valid() && |st.pending| < P.RECORD_LIMIT
      ensures st.phase == old(st).phase && st.sent == old(st).sent
      ensures |old(st).pending| < MAX_PENDING_TX_REQUESTS - 2 ==> st == old(st) && RxTxUntouched()
      ensures RxTxOnlyFreed()
    {
      var nbPending := CountPending();
      while nbPending >= MAX_PENDING_TX_REQUESTS - 2
        invariant Valid() && nbPending == |st.pending|
        invariant st.phase == old(st).phase && st.sent == old(st).sent
        invariant |old(st).pending| < MAX_PENDING_TX_REQUESTS - 2 ==> st == old(st) && RxTxUntouched()
        invariant RxTxOnlyFreed()
        decreases |st.ring.window|, nbp.nicPatience
      {
        RecordingHasPublished(st);
        nbPending := PollCompletions();
      }
    }

    // One turn of a blocking loop: it reclaims something or uses up NIC patience.
    method PollCompletions() returns (nbPending: nat)
      requires Valid() && MayProcess(st)
      modifies this`prHead, this`st, nbp, nbp.txBuf, nbp.wrapTracker, txPipes, rxTxPipes
      ensures Valid()
      ensures nbPending == |st.pending|
      ensures st.phase == old(st).phase && st.sent == old(st).sent && st.ring.unreported == 0
      ensures |st.ring.window| <= |old(st).ring.window|
      ensures old(st).ring.published > 0 ==>
                |st.ring.window| < |old(st).ring.window| || nbp.nicPatience < old(nbp.nicPatience)
      ensures RxTxOnlyFreed()
    {
      ghost var s := st;
      ghost var mid, n := ProcessCompletions();
      ProcessFrame(s, mid, n);
      nbPending := CountPending();
    }

    // RX/TX pipes have only given back space; sends in progress are untouched.
    twostate predicate RxTxOnlyFreed()
      reads rxTxPipes
    {
      forall j :: 0 <= j < |rxTxPipes| ==>
        && rxTxPipes[j].debit == old(rxTxPipes[j].debit)
        && rxTxPipes[j].confirmed == old(rxTxPipes[j].confirmed)
        && rxTxPipes[j].freed >= old(rxTxPipes[j].freed)
    }

    twostate predicate RxTxUntouched()
      reads rxTxPipes
    {
      forall j :: 0 <= j < |rxTxPipes| ==>
        && rxTxPipes[j].freed == old(rxTxPipes[j].freed)
        && rxTxPipes[j].lastTxPipeCapacity == old(rxTxPipes[j].lastTxPipeCapacity)
    }

    // Notes that the next send comes from RX/TX pipe k.
    method OpenDebit(k: nat, nbBytes: nat)
      requires Valid() && k < |rxTxPipes| && rxTxPipes[k].debit == 0 && nbBytes % FLIT == 0
      requires st.pipes[rxTxPipes[k].txId].sent + nbBytes <= rxTxPipes[k].confirmed
      modifies rxTxPipes
      ensures forall j :: 0 <= j < |rxTxPipes| ==>
                && rxTxPipes[j].freed == old(rxTxPipes[j].freed)
                && rxTxPipes[j].confirmed == old(rxTxPipes[j].confirmed)
                && rxTxPipes[j].lastTxPipeCapacity == old(rxTxPipes[j].lastTxPipeCapacity)
      ensures CoreValid() && RxTxBalanced(P.BeginSend(st, rxTxPipes[k].txId, nbBytes))
      ensures rxTxPipes[k].debit == nbBytes
    {
      var pipe := rxTxPipes[k];
      pipe.debit := nbBytes;
    }

    // The send of RX/TX pipe k is recorded: take its bytes off the last capacity.
    method CloseDebit(k: nat, nbBytes: nat)
      requires Valid() && k < |rxTxPipes| && rxTxPipes[k].debit == nbBytes <= rxTxPipes[k].lastTxPipeCapacity
      modifies rxTxPipes
      ensures Valid() && rxTxPipes[k].debit == 0
      ensures rxTxPipes[k].lastTxPipeCapacity == old(rxTxPipes[k].lastTxPipeCapacity) - nbBytes
      ensures rxTxPipes[k].freed == old(rxTxPipes[k].freed) && rxTxPipes[k].confirmed == old(rxTxPipes[k].confirmed)
    {
      var pipe := rxTxPipes[k];
      pipe.lastTxPipeCapacity := pipe.lastTxPipeCapacity - nbBytes;
      pipe.debit := 0;
    }

    // The pipe's buffer starts after the bytes to send; capacity shrinks before the
    // device is asked to send them.
    method BeginTransmission(pipe: TxPipe, nbBytes: nat)
      requires CoreValid() && st.phase.Idle?
      requires pipe.id < |txPipes| && txPipes[pipe.id] == pipe
      requires 0 < nbBytes <= P.Capacity(st.pipes[pipe.id]) && nbBytes % FLIT == 0
      requires RxTxBalanced(P.BeginSend(st, pipe.id, nbBytes))
      modifies this`st, pipe`appBegin
      ensures Valid() && st == P.BeginSend(old(st), pipe.id, nbBytes)
      ensures st.ring.published == |st.ring.window|
    {
      P.ReachableStep(st, P.Begin(pipe.id, nbBytes));
      IdlePublished(st);
      pipe.AdvanceBegin(nbBytes, st.pipes[pipe.id]);
      st := P.BeginSend(st, pipe.id, nbBytes);
    }

    // Writes the descriptors of the begun request and publishes them.
    method PublishRequest(physAddr: nat, nbBytes: nat)
      requires Valid() && st.ring.published == |st.ring.window|
      requires st.phase.Writing? && st.phase.todo == Segments(physAddr, nbBytes)
      modifies this`st, nbp, nbp.txBuf, nbp.wrapTracker
      ensures Valid() && st == old(st).(ring := st.ring, phase := P.Recording(old(st).phase.req))
      ensures AppendedIfRoom(old(st).ring, old(st).phase.todo, st.ring)
    {
      SendFits(st);
      ghost var r := nbp.SendToQueue(physAddr, nbBytes);
      P.ReachableSent(st, r);
      st := st.(ring := nbp.ring, phase := P.Recording(st.phase.req));
    }

    // Publishes the request and then records it, so that completions can be attributed.
    method Send(pipeId: nat, physAddr: nat, nbBytes: nat)
      requires Valid() && st.ring.published == |st.ring.window|
      requires st.phase == P.Writing(P.Request(pipeId, physAddr, nbBytes), Segments(physAddr, nbBytes))
      modifies this`prHead, this`prTail, this`st, pendingRing, nbp, nbp.txBuf, nbp.wrapTracker, txPipes, rxTxPipes
      ensures Valid() && st.phase.Idle? && st.sent == old(st).sent
      ensures |old(st).pending| < MAX_PENDING_TX_REQUESTS - 2 ==> SentAtOnce(old(st), st) && RxTxUntouched()
      ensures RxTxOnlyFreed()
    {
      PublishRequest(physAddr, nbBytes);
      WaitForRecord();
      RecordSent(pipeId, nbBytes);
    }

    // Sends a configuration to the NIC while nothing is in flight.
    method ApplyConfig(config: TxNotification) returns (ret: int)
      requires Valid() && st.phase.Idle? && st.ring.window == []
      modifies this`st, nbp, nbp.txBuf, nbp.wrapTracker
      ensures Valid() && ret == if config.signal < 2 then -1 else 0
      ensures st == if ret == 0 then P.Apply(old(st), P.Config) else old(st)
    {
      EmptyRing(st);
      ghost var r, q;
      IdlePublished(st);
      ret, r, q := nbp.SendConfig(config);
      if ret == 0 {
        P.ReachableStep(st, P.Config);
        st := P.Apply(st, P.Config);
      }
    }

    method RecordSent(pipeId: nat, nbBytes: nat)
      requires Valid() && |st.pending| < P.RECORD_LIMIT
      requires st.phase.Recording? && st.phase.req.pipe == pipeId && st.phase.req.len == nbBytes
      modifies this`prTail, this`st, pendingRing
      ensures Valid() && st == P.RecordRequest(old(st))
    {
      RecordPending(pipeId, nbBytes);
      P.ReachableStep(st, P.Record);
      st := P.RecordRequest(st);
    }
  }

  // From s, in which a request is being written, to t, in which it is recorded, no
  // completion was processed.
  ghost predicate SentAtOnce(s: P.Tx, t: P.Tx) {
    && s.phase.Writing? && AppendedIfRoom(s.ring, s.phase.todo, t.ring)
    && t == s.(ring := t.ring, phase := P.Idle, pending := s.pending + [s.phase.req])
  }

  // With room for all descriptors of a request they are appended, and nothing is reclaimed.
  ghost predicate AppendedIfRoom(r0: P.Ring, ds: seq<Desc>, r: P.Ring) {
    |r0.window| + |ds| <= P.RING_CAP ==>
      r.head == r0.head && r.unreported == r0.unreported && r.window == r0.window + ds
  }

  // No request has more descriptors than the ring has slots.
  lemma SendFits(s: P.Tx)
    requires P.Reachable(s) && s.phase.Writing?
    ensures |s.phase.todo| <= P.RING_CAP
  {
    ReachableInv(s);
  }

  // With an empty ring nothing is outstanding.
  lemma EmptyRing(s: P.Tx)
    requires P.Reachable(s) && s.phase.Idle? && s.ring.window == []
    ensures s.ring.skip == 0
  {
    ReachableInv(s);
    OutstandingLens(s);
  }

  lemma IdlePublished(s: P.Tx)
    requires P.Reachable(s) && s.phase.Idle?
    ensures s.ring.published == |s.ring.window|
  {
    ReachableInv(s);
  }

  lemma RecordingHasPublished(s: P.Tx)
    requires P.Reachable(s) && s.phase.Recording? && |s.pending| >= P.RECORD_LIMIT
    ensures s.ring.published > 0
  {
    var n := BlockedHasWork(s);
  }

  lemma ProcessFrame(s: P.Tx, mid: P.Ring, n: nat)
    requires mid == s.ring.(done := mid.done) && P.CanReclaim(mid, n)
    ensures var t := P.ProcessCompletions(s.(ring := mid), n);
            && t.phase == s.phase && t.sent == s.sent && t.ring.unreported == 0
            && |t.ring.window| == |s.ring.window| - n
            && |t.pipes| == |s.pipes|
            && forall p :: 0 <= p < |s.pipes| ==>
                 t.pipes[p].sent == s.pipes[p].sent && t.pipes[p].completed >= s.pipes[p].completed
  {
    P.ReclaimShape(mid, n);
    ReportAllFrame(s.(ring := P.Reclaim(mid, n)));
  }

  // The NIC finishes some descriptors, as many as possible are reclaimed, and the
  // completions are handed out.
  ghost predicate Processed(s: P.Tx, mid: P.Ring, n: nat, t: P.Tx) {
    && P.TakesAll(s.ring, mid, n)
    && t == P.ProcessCompletions(s.(ring := mid), n)
  }

  predicate MayProcess(s: P.Tx) {
    s.phase.Idle? || (s.phase.Recording? && |s.pending| >= P.RECORD_LIMIT)
  }

  lemma ProcessRun(s: P.Tx, mid: P.Ring, n: nat, r: P.Ring) returns (t: P.Tx)
    requires P.Reachable(s) && MayProcess(s) && NicThenReclaim(s.ring, mid, n, r) && P.Greedy(mid, n)
    ensures Processed(s, mid, n, t) && t == P.ReportAll(s.(ring := r))
    ensures P.Reachable(t) && !t.fault
  {
    P.ReachableStep(s, P.Nic(mid.done));
    var s1 := P.Apply(s, P.Nic(mid.done));
    assert s1 == s.(ring := mid);
    P.ReachableStep(s1, P.Process(n));
    t := P.Apply(s1, P.Process(n));
    ReachableInv(t);
  }

  // RX bytes given back once `completed` bytes have been sent.
  function FreedAfter(freed: nat, debit: nat, completed: nat): nat {
    if completed > freed + debit then completed - debit else freed
  }

  lemma PipeBounds(s: P.Tx, p: nat)
    requires P.Reachable(s) && p < |s.pipes|
    ensures s.pipes[p].completed <= s.pipes[p].sent < s.pipes[p].completed + BUF_PAGE_SIZE
    ensures s.pipes[p].completed % FLIT == 0
  {
    ReachableInv(s);
    PipesAligned(s, p);
  }
}
