// What the invariant of the transmit protocol means for the application.
module TxTheorems {
  import opened Consts
  import opened Segmentation
  import opened TxProtocol
  import opened TxSafety

  lemma {:induction false} FlattenIndex(rs: seq<Request>, i: nat) returns (k: nat, m: nat)
    requires i < |Flatten(rs)|
    ensures k < |rs| && m < |Segments(rs[k].addr, rs[k].len)|
    ensures Flatten(rs)[i] == Segments(rs[k].addr, rs[k].len)[m]
  {
    var first := Segments(rs[0].addr, rs[0].len);
    if i < |first| {
      k, m := 0, i;
    } else {
      k, m := FlattenIndex(rs[1..], i - |first|);
      k := k + 1;
    }
  }

  // Two offsets less than a page apart are different bytes of the page.
  lemma DifferentInPage(x: nat, y: nat)
    requires x < y < x + BUF_PAGE_SIZE
    ensures x % BUF_PAGE_SIZE != y % BUF_PAGE_SIZE
  {
  }

  lemma SamePageOnly(p: nat, q: nat, a: nat, b: nat)
    requires a < BUF_PAGE_SIZE && b < BUF_PAGE_SIZE && p != q
    ensures p * BUF_PAGE_SIZE + a != q * BUF_PAGE_SIZE + b
  {
  }

  lemma RequestByte(page: nat, start: nat, i: nat)
    ensures CircularByte(page * BUF_PAGE_SIZE + start % BUF_PAGE_SIZE, i)
         == page * BUF_PAGE_SIZE + (start + i) % BUF_PAGE_SIZE
  {
    var addr := page * BUF_PAGE_SIZE + start % BUF_PAGE_SIZE;
    assert addr % BUF_PAGE_SIZE == start % BUF_PAGE_SIZE;
    assert (addr + i) % BUF_PAGE_SIZE == (start + i) % BUF_PAGE_SIZE;
  }

  // What a pipe sends grows along the history.
  lemma BytesGrow(rs: seq<Request>, m: nat, k: nat, p: nat)
    requires m <= k < |rs|
    ensures Bytes(rs[..m], p) <= Bytes(rs[..k], p)
    ensures rs[k].pipe == p ==> Bytes(rs[..k], p) + rs[k].len <= Bytes(rs, p)
  {
    assert rs[..k] == rs[..m] + rs[m..k];
    BytesAppend(rs[..m], rs[m..k], p);
    var upto := rs[..k + 1];
    assert upto[..k] == rs[..k];
    assert rs == upto + rs[k + 1..];
    BytesAppend(upto, rs[k + 1..], p);
  }

  // Where the bytes of an outstanding request lie in the stream of its pipe.
  lemma OutstandingSpan(s: Tx, k: nat)
    requires Inv(s) && |s.reported| <= k < |s.sent|
    ensures RequestValid(s, k)
    ensures var q := s.sent[k];
            && s.pipes[q.pipe].completed <= Bytes(s.sent[..k], q.pipe)
            && Bytes(s.sent[..k], q.pipe) + q.len <= s.pipes[q.pipe].sent
  {
    assert RequestValid(s, k);
    BytesGrow(s.sent, |s.reported|, k, s.sent[k].pipe);
    assert s.sent[..|s.reported|] == s.reported;
  }

  lemma AppByteOf(p: Pipe, j: nat)
    ensures AppByte(p, j) == p.page * BUF_PAGE_SIZE + (p.sent + j) % BUF_PAGE_SIZE
  {
  }

  lemma OutstandingByteIsNotFree(s: Tx, p: nat, k: nat, i: nat, j: nat)
    requires Inv(s) && p < |s.pipes| && |s.reported| <= k < |s.sent| && i < s.sent[k].len
    requires j < Capacity(s.pipes[p])
    ensures CircularByte(s.sent[k].addr, i) != AppByte(s.pipes[p], j)
  {
    var q := s.sent[k];
    OutstandingSpan(s, k);
    var start := Bytes(s.sent[..k], q.pipe);
    var pipe := s.pipes[p];
    RequestByte(s.pipes[q.pipe].page, start, i);
    AppByteOf(pipe, j);
    CapacityValue(pipe);
    if q.pipe == p {
      DifferentInPage(start + i, pipe.sent + j);
    } else {
      SamePageOnly(s.pipes[q.pipe].page, pipe.page, (start + i) % BUF_PAGE_SIZE, (pipe.sent + j) % BUF_PAGE_SIZE);
    }
  }

  // A descriptor that is not reclaimed belongs to a request that is neither reported
  // nor counted as complete: no send is reported before its last descriptor is reclaimed.
  lemma UnreclaimedIsUnreported(s: Tx, d: nat) returns (k: nat, m: nat)
    requires Reachable(s) && d < |s.ring.window|
    ensures |s.reported| + s.ring.unreported <= k < |s.sent|
    ensures m < |Segments(s.sent[k].addr, s.sent[k].len)|
    ensures s.ring.window[d] == Segments(s.sent[k].addr, s.sent[k].len)[m]
  {
    ReachableInv(s);
    var u, out := s.ring.unreported, Outstanding(s);
    assert s.ring.window[d] == (s.ring.window + Todo(s))[d] == Flatten(out[u..])[s.ring.skip + d];
    k, m := FlattenIndex(out[u..], s.ring.skip + d);
    assert s.sent[|s.reported| + u + k] == out[u + k];
    k := |s.reported| + u + k;
  }

  // TX reuse safety: in every reachable state, no byte of any descriptor that is not
  // reclaimed - published or not, of any pipe - is among the capacity() bytes that
  // start at any pipe's app_begin.
  lemma ReuseSafety(s: Tx, p: nat, d: nat, x: nat, j: nat)
    requires Reachable(s) && p < |s.pipes|
    requires d < |s.ring.window| && x in DescBytes(s.ring.window[d])
    requires j < Capacity(s.pipes[p])
    ensures x != AppByte(s.pipes[p], j)
  {
    ReachableInv(s);
    var k, m := UnreclaimedIsUnreported(s, d);
    var i := SegmentByte(s.sent[k].addr, s.sent[k].len, m, x);
    OutstandingByteIsNotFree(s, p, k, i, j);
  }

  // capacity() is the page less one byte less the bytes of the outstanding requests.
  lemma CapacityIsPageLessOutstanding(s: Tx, p: nat)
    requires Reachable(s) && p < |s.pipes|
    ensures Capacity(s.pipes[p]) + Bytes(Outstanding(s), p) == BUF_PAGE_SIZE - 1
  {
    ReachableInv(s);
    CapacityValue(s.pipes[p]);
    BytesAppend(s.reported, Outstanding(s), p);
  }

  lemma {:induction false} BytesAligned(rs: seq<Request>, p: nat)
    requires forall k :: 0 <= k < |rs| ==> rs[k].len % FLIT == 0
    ensures Bytes(rs, p) % FLIT == 0
  {
    if rs != [] {
      BytesAligned(rs[..|rs| - 1], p);
    }
  }

  // Pipes move in whole flits.
  lemma PipesAligned(s: Tx, p: nat)
    requires Reachable(s) && p < |s.pipes|
    ensures s.pipes[p].sent % FLIT == 0 && s.pipes[p].completed % FLIT == 0
  {
    ReachableInv(s);
    forall k | 0 <= k < |s.sent| ensures s.sent[k].len % FLIT == 0 {
      assert RequestValid(s, k);
    }
    BytesAligned(s.sent, p);
    assert s.reported == s.sent[..|s.reported|];
    BytesAligned(s.reported, p);
  }

  // Recorded requests plus the one being sent are the completions not yet reported
  // plus the requests whose last descriptor is still to be reclaimed.
  lemma CompletionConservation(s: Tx)
    requires Reachable(s)
    ensures |Outstanding(s)| == s.ring.unreported + CountLast(s.ring.window) + CountLast(Todo(s))
    ensures s.ring.published <= |s.ring.window|
    ensures !s.phase.Writing? ==>
              |Outstanding(s)| == s.ring.unreported + CountLast(s.ring.window[..s.ring.published])
  {
    ReachableInv(s);
    var u, out := s.ring.unreported, Outstanding(s);
    OutstandingLens(s);
    FlattenCountLast(out[u..], s.ring.skip);
    CountLastAppend(s.ring.window, Todo(s));
    assert s.ring.window[..|s.ring.window|] == s.ring.window;
  }

  // First-in first-out attribution: the k-th notification carries the pipe and the
  // byte count of the k-th send, and a pipe got back exactly the bytes of its sends
  // among those reported.
  lemma FifoAttribution(s: Tx, k: nat, p: nat)
    requires Reachable(s) && k < |s.reported| && p < |s.pipes|
    ensures |s.reported| <= |s.sent| && s.reported[k] == s.sent[k]
    ensures s.pipes[p].completed == Bytes(s.sent[..|s.reported|], p)
  {
    ReachableInv(s);
    assert s.sent[..|s.reported|] == s.reported;
  }

  // The pending ring is never popped empty nor pushed full, although a request is
  // published before it is recorded and completions may be processed in between.
  lemma PendingRingSafe(s: Tx)
    requires Reachable(s)
    ensures !s.fault && |s.pending| <= RECORD_LIMIT < MAX_PENDING_TX_REQUESTS
    ensures s.ring.unreported <= |s.pending|
  {
    ReachableInv(s);
    var out := Outstanding(s);
    assert out[|out|..] == [];
    if s.ring.unreported > 0 {
      assert s.ring.window + Todo(s) != [];
    }
  }

  // Whatever a blocking loop waits for, there is a published descriptor at the head
  // for the NIC to finish, and finishing it lets the loop go on.
  ghost predicate Blocked(s: Tx) {
    || (s.phase.Writing? && s.phase.todo != [] && |s.ring.window| == RING_CAP)
    || (s.phase.Recording? && |s.pending| >= RECORD_LIMIT)
  }

  function NicFinishesHead(r: Ring): seq<bool>
    requires r.done != []
  {
    r.done[0 := true]
  }

  lemma BlockedHasWork(s: Tx) returns (n: nat)
    requires Reachable(s) && Blocked(s)
    ensures s.ring.published > 0 && |s.ring.done| > 0 && n > 0
    ensures Enabled(s, Nic(NicFinishesHead(s.ring)))
    ensures var t := Apply(s, Nic(NicFinishesHead(s.ring)));
            if s.phase.Writing?
            then Enabled(t, ReclaimWhenFull(n)) && Enabled(Apply(t, ReclaimWhenFull(n)), Write)
            else Enabled(t, Process(n))
  {
    ReachableInv(s);
    if !s.phase.Writing? {
      WindowLong(s);
    }
    var t := Apply(s, Nic(NicFinishesHead(s.ring)));
    n := ReclaimAll(t.ring);
    ReclaimShape(t.ring, n);
  }

  // How much a reclaim takes.
  lemma ReclaimAll(r: Ring) returns (n: nat)
    requires r.published <= |r.window| == |r.done|
    ensures CanReclaim(r, n) && Greedy(r, n)
    ensures r.published > 0 && r.done[0] ==> n > 0
  {
    n := 0;
    while n < BATCH_SIZE && n < r.published && r.done[n]
      invariant CanReclaim(r, n)
    {
      n := n + 1;
    }
  }

  // A pipe that has less than its full capacity has a published descriptor to wait
  // for; with nothing outstanding it has all of it.
  lemma CapacityComesBack(s: Tx, p: nat)
    requires Reachable(s) && p < |s.pipes| && s.phase.Idle?
    ensures Capacity(s.pipes[p]) < BUF_PAGE_SIZE - 1 ==> s.ring.published > 0
    ensures s.pending == [] ==> Capacity(s.pipes[p]) >= MAX_CAPACITY
  {
    ReachableInv(s);
    CapacityIsPageLessOutstanding(s, p);
    var out := Outstanding(s);
    assert out[0..] == out;
    if out != [] && s.ring.unreported == 0 {
      OutstandingLens(s);
      FlattenCountLast(out, s.ring.skip);
      assert s.ring.window + [] == s.ring.window;
    }
  }

  // What a pipe has sent is what its requests add up to.
  lemma SentBytes(s: Tx, p: nat)
    requires Reachable(s) && p < |s.pipes|
    ensures s.pipes[p].sent == Bytes(s.sent, p)
  {
    ReachableInv(s);
  }
}
