// Configuring the NIC while requests are in flight. The wait of send_config takes the
// first completions it sees for that of the configuration, and forgets them.
module Configs {
  import opened Consts
  import opened Segmentation
  import opened Seqs
  import opened TxProtocol
  import opened TxSafety
  import opened TxTheorems
  import opened TxQueue

  // Completions counted and still to come.
  function Balance(r: Ring): nat { r.unreported + CountLast(r.window) }

  // A ring with a configuration published behind everything else.
  function WithConfig(r: Ring, d: Desc): Ring {
    var r' := AppendDesc(r, d);
    r'.(published := |r'.window|)
  }

  // What may come of send_config in a ring with a free slot.
  ghost predicate Outcome(r: Ring, d: Desc, b: Ring) {
    exists q: Ring :: Forgets(WithConfig(r, d), q, b)
  }

  // As many completions are lost as were counted, less the one of the configuration.
  lemma OutcomeBalance(r: Ring, d: Desc, q: Ring, b: Ring)
    requires d.last && |r.window| == |r.done| && Forgets(WithConfig(r, d), q, b)
    ensures r.unreported < q.unreported <= Balance(r) + 1
    ensures Balance(b) == Balance(r) + 1 - (q.unreported - r.unreported)
  {
    ConfigCounts(r, d);
    var ps :| Polls(WithConfig(r, d), ps, q);
    PollsKeepCount(WithConfig(r, d), ps, q);
  }

  // Requests have at most 17 descriptors, so a batch holds the ends of several.
  lemma {:induction false} LastsInBatch(rs: seq<Request>, skip: nat, n: nat)
    requires LensValid(rs) && rs != [] && skip < |Segments(rs[0].addr, rs[0].len)|
    requires skip + n <= |Flatten(rs)|
    ensures n < MAX_DESCS * (CountLast(Flatten(rs)[skip..skip + n]) + 1)
  {
    var first, rest := Segments(rs[0].addr, rs[0].len), Flatten(rs[1..]);
    SegmentsShape(rs[0].addr, rs[0].len);
    SegmentsBound(rs[0].addr, rs[0].len);
    var m := |first| - skip;
    if n >= m {
      var head, tail := first[skip..], rest[..n - m];
      assert Flatten(rs)[skip..skip + n] == head + tail;
      CountLastEnd(head);
      CountLastAppend(head, tail);
      if rs[1..] != [] {
        SegmentsShape(rs[1..][0].addr, rs[1..][0].len);
        LastsInBatch(rs[1..], 0, n - m);
      }
    }
  }

  // All descriptors finished, and a batch of them reclaimed.
  lemma FinishAll(r: Ring) returns (p: Poll, q: Ring)
    requires r.published == |r.window| == |r.done| && r.window != []
    ensures p.n == Min(BATCH_SIZE, |r.window|) && PollOk(r, p, q)
    ensures q.unreported == r.unreported + CountLast(r.window[..p.n])
  {
    var mid, n := AllDone(r), Min(BATCH_SIZE, |r.window|);
    p, q := Poll(r, mid, n), Reclaim(mid, n);
    FinishedPoll(r, n);
    ReclaimCounts(mid, n);
    ReclaimShape(mid, n);
    SplitCount(r.window, n);
  }

  lemma FinishedPoll(r: Ring, n: nat)
    requires r.published == |r.window| == |r.done| && n == Min(BATCH_SIZE, |r.window|)
    ensures NicThenReclaim(r, AllDone(r), n, Reclaim(AllDone(r), n))
  {
    ReclaimShape(AllDone(r), n);
  }

  function AllDone(r: Ring): (mid: Ring)
    ensures |mid.done| == |r.done| && forall i :: 0 <= i < |mid.done| ==> mid.done[i]
  {
    r.(done := seq(|r.done|, _ => true))
  }

  // With a request in flight, a batch that a fast NIC has finished ends two requests.
  lemma TwoEndsInBatch(s: Tx, d: Desc)
    requires Reachable(s) && s.phase.Idle? && s.ring.window != [] && d.last
    ensures var w := WithConfig(s.ring, d).window;
            CountLast(w[..Min(BATCH_SIZE, |w|)]) >= 2
  {
    ReachableInv(s);
    OutstandingLens(s);
    var out, u := Outstanding(s), s.ring.unreported;
    var w := s.ring.window + [d];
    assert s.ring.window == Flatten(out[u..])[s.ring.skip..];
    if |w| <= BATCH_SIZE {
      assert w[..|w|] == w;
      ConfigCounts(s.ring, d);
      FlattenCountLast(out[u..], s.ring.skip);
    } else {
      LastsInBatch(out[u..], s.ring.skip, BATCH_SIZE);
      assert w[..BATCH_SIZE] == Flatten(out[u..])[s.ring.skip..s.ring.skip + BATCH_SIZE];
    }
  }

  lemma BusyLoses(s: Tx, d: Desc) returns (b: Ring)
    requires Reachable(s) && s.phase.Idle? && s.ring.window != [] && d.last
    ensures Outcome(s.ring, d, b) && Balance(b) < Balance(s.ring)
  {
    ReachableInv(s);
    var a := WithConfig(s.ring, d);
    var p, q := FinishAll(a);
    TwoEndsInBatch(s, d);
    AwaitNothing(a);
    AwaitMore(a, p, q);
    b := q.(unreported := a.unreported);
    assert Forgets(a, q, b);
    OutcomeBalance(s.ring, d, q, b);
  }

  lemma QuietConserves(s: Tx, d: Desc, b: Ring)
    requires Reachable(s) && s.ring.window == [] && d.last && Outcome(s.ring, d, b)
    ensures Balance(b) == Balance(s.ring)
  {
    ReachableInv(s);
    var q: Ring :| Forgets(WithConfig(s.ring, d), q, b);
    OutcomeBalance(s.ring, d, q, b);
  }

  // No outcome loses or gains a completion.
  ghost predicate AlwaysConserves(r: Ring, d: Desc) {
    forall b: Ring :: Outcome(r, d, b) ==> Balance(b) == Balance(r)
  }

  // Whatever the NIC does, send_config loses no completion: that holds if and only if
  // nothing is in flight when it is called.
  lemma ConfigConservesIffQuiet(s: Tx, d: Desc)
    requires Reachable(s) && s.phase.Idle? && d.last
    ensures AlwaysConserves(s.ring, d) <==> s.ring.window == []
  {
    if s.ring.window == [] {
      forall b: Ring | Outcome(s.ring, d, b) ensures Balance(b) == Balance(s.ring) {
        QuietConserves(s, d, b);
      }
    } else {
      var b := BusyLoses(s, d);
      assert Outcome(s.ring, d, b) && Balance(b) != Balance(s.ring);
    }
  }
}
