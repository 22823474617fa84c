// The invariant of the transmit protocol holds in every state of every run, and
// what it says: no byte handed to the application is still being sent, completions
// are attributed first-in first-out, nothing under- or overflows, nothing deadlocks.
module TxSafety {
  import opened Consts
  import opened Segmentation
  import opened TxProtocol
  import opened Seqs

  ghost predicate LensValid(rs: seq<Request>) {
    forall k :: 0 <= k < |rs| ==> 0 < rs[k].len < BUF_PAGE_SIZE
  }

  lemma OutstandingLens(s: Tx)
    requires s.sent == s.reported + Outstanding(s) && RequestsValid(s)
    ensures LensValid(Outstanding(s))
  {
    forall k | 0 <= k < |Outstanding(s)|
      ensures 0 < Outstanding(s)[k].len < BUF_PAGE_SIZE
    {
      assert RequestValid(s, |s.reported| + k);
      assert s.sent[|s.reported| + k] == Outstanding(s)[k];
    }
  }

  lemma SegmentsBound(addr: nat, len: nat)
    requires 0 < len < BUF_PAGE_SIZE
    ensures 0 < |Segments(addr, len)| <= MAX_DESCS
  {
    SegmentsShape(addr, len);
    SegmentsCount(addr, len);
  }

  // Exactly one descriptor per unfinished request is the last of its request.
  lemma {:induction false} FlattenCountLast(rs: seq<Request>, skip: nat)
    requires LensValid(rs)
    requires rs == [] ==> skip == 0
    requires rs != [] ==> skip < |Segments(rs[0].addr, rs[0].len)|
    ensures skip <= |Flatten(rs)|
    ensures CountLast(Flatten(rs)[skip..]) == |rs|
  {
    if rs != [] {
      var first := Segments(rs[0].addr, rs[0].len);
      var rest := Flatten(rs[1..]);
      SegmentsShape(rs[0].addr, rs[0].len);
      if rs[1..] != [] {
        SegmentsShape(rs[1..][0].addr, rs[1..][0].len);
      }
      FlattenCountLast(rs[1..], 0);
      assert rest[0..] == rest;
      CountLastEnd(first[skip..]);
      CountLastAppend(first[skip..], rest);
      DropLeft(first, rest, skip);
    }
  }

  lemma {:induction false} CountLastBound(ds: seq<Desc>)
    ensures CountLast(ds) <= |ds|
  {
    if ds != [] {
      CountLastBound(ds[1..]);
    }
  }

  // Reclaiming one descriptor counts a completion exactly when the oldest unfinished
  // request has no descriptor left.
  lemma ReclaimOneKeeps(r: Ring, todo: seq<Desc>, out: seq<Request>)
    requires WindowIsRequests(r, todo, out) && LensValid(out)
    requires 0 < r.published <= |r.window| == |r.done|
    ensures r.unreported < |out|
    ensures WindowIsRequests(ReclaimOne(r), todo, out)
  {
    var u := r.unreported;
    assert out[|out|..] == [];
    assert r.window + todo != [];
    var q := out[u];
    var first := Segments(q.addr, q.len);
    var rest := Flatten(out[u + 1..]);
    SegmentsShape(q.addr, q.len);
    assert out[u..][1..] == out[u + 1..];
    assert Flatten(out[u..])[r.skip..] == first[r.skip..] + rest;
    assert r.window[0] == (r.window + todo)[0] == first[r.skip];
    assert r.window[1..] + todo == (r.window + todo)[1..] == first[r.skip + 1..] + rest;
    if r.skip + 1 == |first| {
      if u + 1 < |out| {
        SegmentsShape(out[u + 1].addr, out[u + 1].len);
      }
      assert first[r.skip + 1..] == [];
    } else {
      assert first[r.skip + 1..] + rest == (first + rest)[r.skip + 1..];
    }
  }

  lemma {:induction false} ReclaimKeeps(r: Ring, n: nat, todo: seq<Desc>, out: seq<Request>)
    requires WindowIsRequests(r, todo, out) && LensValid(out)
    requires n <= r.published <= |r.window| == |r.done|
    ensures WindowIsRequests(Reclaim(r, n), todo, out)
    ensures Reclaim(r, n).window == r.window[n..] && Reclaim(r, n).done == r.done[n..]
    ensures Reclaim(r, n).published == r.published - n
    ensures r.unreported <= Reclaim(r, n).unreported
    decreases n
  {
    if n != 0 {
      ReclaimOneKeeps(r, todo, out);
      ReclaimKeeps(ReclaimOne(r), n - 1, todo, out);
    }
  }

  // The window is never short while completions wait to be reported or the pending
  // ring is nearly full, so one batch cannot reach the request that is still unrecorded.
  lemma WindowLong(s: Tx)
    requires Inv(s) && s.phase.Recording? && |s.pending| >= RECORD_LIMIT
    ensures |s.ring.window| > BATCH_SIZE
  {
    if s.ring.unreported == 0 {
      var out := Outstanding(s);
      OutstandingLens(s);
      assert out[0..] == out;
      FlattenCountLast(out, s.ring.skip);
      CountLastBound(Flatten(out)[s.ring.skip..]);
      assert s.ring.window + [] == s.ring.window;
    }
  }

  lemma ReclaimedFewEnough(s: Tx, n: nat)
    requires Inv(s) && Enabled(s, Process(n))
    ensures Reclaim(s.ring, n).unreported <= |s.pending|
  {
    var out := Outstanding(s);
    OutstandingLens(s);
    ReclaimKeeps(s.ring, n, Todo(s), out);
    var r := Reclaim(s.ring, n);
    if s.phase.Recording? {
      WindowLong(s);
      assert out[|out|..] == [];
      assert r.window + Todo(s) != [];
    }
  }

  // Valid requests stay valid while the history and the pages stay as they are.
  lemma RequestsTransfer(s: Tx, t: Tx)
    requires RequestsValid(s) && s.sent == t.sent && |s.pipes| == |t.pipes|
    requires forall p :: 0 <= p < |s.pipes| ==> s.pipes[p].page == t.pipes[p].page
    ensures RequestsValid(t)
  {
    forall i | 0 <= i < |t.sent| ensures RequestValid(t, i) {
      assert RequestValid(s, i);
    }
  }

  // What holds between the turns of the completion loop.
  ghost predicate ReportInv(s: Tx) {
    && !s.fault
    && PagesDistinct(s)
    && RingShape(s)
    && s.sent == s.reported + Outstanding(s)
    && WindowIsRequests(s.ring, Todo(s), Outstanding(s))
    && RequestsValid(s)
    && PipesMatch(s)
    && |s.pending| <= RECORD_LIMIT
    && s.ring.unreported <= |s.pending|
  }

  lemma ReportOneQueue(s: Tx)
    requires ReportInv(s) && s.ring.unreported > 0
    ensures s.pending[0].pipe < |s.pipes|
    ensures Outstanding(ReportOne(s)) == Outstanding(s)[1..]
    ensures s.sent == s.reported + [s.pending[0]] + Outstanding(s)[1..]
  {
    HeadOfRest(s.sent, s.reported, Outstanding(s));
    assert Outstanding(s)[0] == s.pending[0];
    assert RequestValid(s, |s.reported|);
    DropLeft(s.pending, InFlight(s), 1);
  }

  lemma ReportOnePipes(s: Tx)
    requires ReportInv(s) && s.ring.unreported > 0
    ensures PipesMatch(ReportOne(s))
  {
    ReportOneQueue(s);
    var t := ReportOne(s);
    var rest := Outstanding(s)[1..];
    forall p | 0 <= p < |t.pipes|
      ensures t.pipes[p].completed == Bytes(t.reported, p) <= t.pipes[p].sent
    {
      assert t.reported[..|s.reported|] == s.reported;
      BytesAppend(t.reported, rest, p);
    }
  }

  lemma ReportOneKeeps(s: Tx)
    requires ReportInv(s) && s.ring.unreported > 0
    ensures ReportInv(ReportOne(s))
    ensures ReportOne(s).reported == s.reported + [s.pending[0]]
    ensures ReportOne(s).phase == s.phase
  {
    ReportOneQueue(s);
    ReportOnePipes(s);
    var t := ReportOne(s);
    RequestsTransfer(s, t);
    assert Outstanding(s)[s.ring.unreported..] == Outstanding(t)[t.ring.unreported..];
  }

  lemma {:induction false} ReportAllKeeps(s: Tx)
    requires ReportInv(s)
    ensures ReportInv(ReportAll(s)) && ReportAll(s).ring.unreported == 0
    ensures ReportAll(s).phase == s.phase
    decreases s.ring.unreported
  {
    if s.ring.unreported != 0 {
      ReportOneKeeps(s);
      ReportAllKeeps(ReportOne(s));
    }
  }

  // Reporting touches nothing but the completed bytes, and those only grow.
  lemma {:induction false} ReportAllFrame(s: Tx)
    ensures ReportAll(s).ring == s.ring.(unreported := 0)
    ensures ReportAll(s).phase == s.phase && ReportAll(s).sent == s.sent
    ensures |ReportAll(s).pipes| == |s.pipes|
    ensures forall p :: 0 <= p < |s.pipes| ==>
              && ReportAll(s).pipes[p].sent == s.pipes[p].sent
              && ReportAll(s).pipes[p].completed >= s.pipes[p].completed
    decreases s.ring.unreported
  {
    if s.ring.unreported != 0 {
      ReportAllFrame(ReportOne(s));
    }
  }

  // A fault is never forgotten, so a completion loop that ends without one had a
  // recorded request to pop at every turn.
  lemma {:induction false} FaultSticks(s: Tx)
    requires s.fault
    ensures ReportAll(s).fault
    decreases s.ring.unreported
  {
    if s.ring.unreported != 0 {
      FaultSticks(ReportOne(s));
    }
  }

  lemma PopIsRecorded(s: Tx)
    requires s.ring.unreported > 0 && !ReportAll(s).fault
    ensures s.pending != [] && s.pending[0].pipe < |s.pipes|
    ensures ReportAll(ReportOne(s)) == ReportAll(s)
  {
    if s.pending == [] || s.pending[0].pipe >= |s.pipes| {
      FaultSticks(ReportOne(s));
    }
  }

  lemma ProcessKeeps(s: Tx, n: nat)
    requires Inv(s) && Enabled(s, Process(n))
    ensures Inv(ProcessCompletions(s, n))
  {
    OutstandingLens(s);
    ReclaimKeeps(s.ring, n, Todo(s), Outstanding(s));
    ReclaimedFewEnough(s, n);
    var t := s.(ring := Reclaim(s.ring, n));
    assert Outstanding(t) == Outstanding(s);
    RequestsTransfer(s, t);
    ReportAllKeeps(t);
  }

  lemma ReclaimFullKeeps(s: Tx, n: nat)
    requires Inv(s) && Enabled(s, ReclaimWhenFull(n))
    ensures Inv(Apply(s, ReclaimWhenFull(n)))
  {
    OutstandingLens(s);
    ReclaimKeeps(s.ring, n, Todo(s), Outstanding(s));
    var t := Apply(s, ReclaimWhenFull(n));
    assert Outstanding(t) == Outstanding(s);
    RequestsTransfer(s, t);
  }

  // capacity() is what is left of the page, less one byte, after the outstanding bytes.
  lemma CapacityValue(p: Pipe)
    requires p.completed <= p.sent < p.completed + BUF_PAGE_SIZE
    ensures Capacity(p) == BUF_PAGE_SIZE - 1 - (p.sent - p.completed)
  {
    var d := p.sent - p.completed;
    assert (p.completed % BUF_PAGE_SIZE - p.sent % BUF_PAGE_SIZE - 1) % BUF_PAGE_SIZE
        == (p.completed - p.sent - 1) % BUF_PAGE_SIZE;
  }

  lemma AppendRequest(r: Ring, out: seq<Request>, req: Request)
    requires WindowIsRequests(r, [], out) && 0 < req.len < BUF_PAGE_SIZE
    ensures WindowIsRequests(r, Segments(req.addr, req.len), out + [req])
  {
    var u := r.unreported;
    SegmentsBound(req.addr, req.len);
    assert (out + [req])[u..] == out[u..] + [req];
    FlattenAppend(out[u..], [req]);
    FlattenOne(req);
    DropLeft(Flatten(out[u..]), Flatten([req]), r.skip);
    assert r.window + [] == r.window;
    assert out[|out|..] == [];
  }

  lemma AppByteZero(p: Pipe)
    ensures AppByte(p, 0) == p.page * BUF_PAGE_SIZE + p.sent % BUF_PAGE_SIZE
  {
  }

  lemma BeginRequests(s: Tx, p: nat, len: nat)
    requires Inv(s) && Enabled(s, Begin(p, len))
    ensures RequestsValid(BeginSend(s, p, len)) && PipesMatch(BeginSend(s, p, len))
  {
    var t := BeginSend(s, p, len);
    CapacityValue(s.pipes[p]);
    var n := |s.sent|;
    assert t.sent[..n] == s.sent;
    forall i | 0 <= i < |t.sent| ensures RequestValid(t, i) {
      if i < n {
        assert RequestValid(s, i);
        assert t.sent[..i] == s.sent[..i];
      } else {
        AppByteZero(s.pipes[p]);
      }
    }
  }

  lemma BeginKeeps(s: Tx, p: nat, len: nat)
    requires Inv(s) && Enabled(s, Begin(p, len))
    ensures Inv(BeginSend(s, p, len))
  {
    var t := BeginSend(s, p, len);
    CapacityValue(s.pipes[p]);
    AppendRequest(s.ring, Outstanding(s), t.phase.req);
    BeginRequests(s, p, len);
    assert Outstanding(t) == Outstanding(s) + [t.phase.req];
    SegmentsBound(t.phase.req.addr, len);
    assert t.sent == t.reported + Outstanding(t);
  }

  lemma WriteKeeps(s: Tx)
    requires Inv(s) && Enabled(s, Write)
    ensures Inv(WriteDesc(s))
  {
    var t := WriteDesc(s);
    assert t.ring.window + t.phase.todo == s.ring.window + s.phase.todo;
    assert Outstanding(t) == Outstanding(s);
    RequestsTransfer(s, t);
  }

  // Steps that leave the histories and the pipes alone.
  lemma QuietKeeps(s: Tx, step: Step)
    requires Inv(s) && Enabled(s, step) && (step.Nic? || step.Publish? || step.Record? || step.Config?)
    ensures Inv(Apply(s, step))
  {
    var t := Apply(s, step);
    assert Outstanding(t) == Outstanding(s);
    RequestsTransfer(s, t);
  }

  // Every step of the machine, and every step of the NIC, keeps the invariant.
  lemma StepKeepsInv(s: Tx, step: Step)
    requires Inv(s) && Enabled(s, step)
    ensures Inv(Apply(s, step))
  {
    match step
    case Begin(p, len) => BeginKeeps(s, p, len);
    case Write => WriteKeeps(s);
    case ReclaimWhenFull(n) => ReclaimFullKeeps(s, n);
    case Process(n) => ProcessKeeps(s, n);
    case _ => QuietKeeps(s, step);
  }

  lemma InitInv(pages: seq<nat>, head: nat)
    requires Distinct(pages)
    ensures Inv(Init(pages, head))
  {
  }

  // Safety over whole runs: any number of pipes, any interleaving with the NIC.
  lemma {:induction false} RunKeepsInv(states: seq<Tx>, steps: seq<Step>, k: nat)
    requires IsRun(states, steps) && Inv(states[0]) && k <= |steps|
    ensures Inv(states[k])
  {
    if k > 0 {
      RunKeepsInv(states, steps, k - 1);
      StepKeepsInv(states[k - 1], steps[k - 1]);
    }
  }

  lemma ReachableInv(s: Tx)
    requires Reachable(s)
    ensures Inv(s)
  {
    var states, steps :| Reaches(states, steps, s);
    var pages, head :| Distinct(pages) && states[0] == Init(pages, head);
    InitInv(pages, head);
    RunKeepsInv(states, steps, |steps|);
  }
}
