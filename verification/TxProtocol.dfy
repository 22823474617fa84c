// The transmit protocol between the application and the NIC, as a state machine
// over unbounded counters. One application thread issues sends and processes
// completions; between any two of its steps the NIC may finish any published
// descriptors. TxQueue and TxDevice show that the code, with its modular indices,
// bitmap and arrays, only takes steps of this machine.
module TxProtocol {
  import opened Consts
  import opened Segmentation
  import opened Seqs

  datatype Request = Request(pipe: nat, addr: nat, len: nat)

  // The TX half of a notification buffer.
  datatype Ring = Ring(
    head: nat,          // slots reclaimed so far; slot of window[i] is (head + i) mod size
    window: seq<Desc>,  // descriptors written and not yet reclaimed
    done: seq<bool>,    // which of them the NIC has finished
    published: nat,     // how many of them the NIC has been told about
    unreported: nat,    // completions counted and not yet handed out
    skip: nat)          // descriptors already reclaimed of the oldest unfinished request

  datatype Pipe = Pipe(page: nat, sent: nat, completed: nat)

  datatype Phase = Idle | Writing(req: Request, todo: seq<Desc>) | Recording(req: Request)

  datatype Tx = Tx(
    ring: Ring,
    phase: Phase,
    pending: seq<Request>,   // the ring of recorded requests
    pipes: seq<Pipe>,
    sent: seq<Request>,      // history: every request, in the order of the sends
    reported: seq<Request>,  // history: every completion, in the order of the notifications
    fault: bool)             // the pending ring was popped empty or pushed full

  // The steps of the machine.

  datatype Step =
    | Nic(done: seq<bool>)
    | Begin(pipe: nat, len: nat)
    | Write
    | ReclaimWhenFull(n: nat)
    | Publish
    | Process(n: nat)
    | Record
    | Config

  const RING_CAP: nat := NOTIFICATION_BUF_SIZE - 1
  const RECORD_LIMIT: nat := MAX_PENDING_TX_REQUESTS - 2

  // Free bytes of a pipe, as the code computes them from the wrapped indices.
  function Capacity(p: Pipe): nat {
    (p.completed % BUF_PAGE_SIZE - p.sent % BUF_PAGE_SIZE - 1) % BUF_PAGE_SIZE
  }

  function AppByte(p: Pipe, j: nat): nat {
    p.page * BUF_PAGE_SIZE + (p.sent % BUF_PAGE_SIZE + j) % BUF_PAGE_SIZE
  }

  predicate NicMay(r: Ring, done: seq<bool>) {
    && |done| == |r.done|
    && forall i :: 0 <= i < |done| ==>
         && (r.done[i] ==> done[i])
         && (done[i] && !r.done[i] ==> i < r.published)
  }

  predicate CanReclaim(r: Ring, n: nat) {
    && n <= BATCH_SIZE
    && n <= r.published
    && r.published <= |r.window| == |r.done|
    && forall i :: 0 <= i < n ==> r.done[i]
  }

  // A reclaim takes all it can: it stops at the batch limit, at the published tail or at
  // an unfinished descriptor.
  predicate Greedy(r: Ring, n: nat) {
    n == BATCH_SIZE || n == r.published || (n < |r.done| && !r.done[n])
  }

  // From r the NIC finishes some descriptors, and then n of them, all that can be, are
  // reclaimed.
  predicate TakesAll(r: Ring, mid: Ring, n: nat) {
    mid == r.(done := mid.done) && NicMay(r, mid.done) && CanReclaim(mid, n) && Greedy(mid, n)
  }

  function ReclaimOne(r: Ring): Ring
    requires r.window != [] && r.done != [] && r.published > 0
  {
    Ring(r.head + 1, r.window[1..], r.done[1..], r.published - 1,
         r.unreported + (if r.window[0].last then 1 else 0),
         if r.window[0].last then 0 else r.skip + 1)
  }

  function Reclaim(r: Ring, n: nat): Ring
    requires n <= r.published <= |r.window| == |r.done|
    decreases n
  {
    if n == 0 then r else Reclaim(ReclaimOne(r), n - 1)
  }

  // The ring while the descriptors `todo` of one request are being written: turns of
  // the send loop, with the NIC at work in between.

  datatype Sending = Sending(ring: Ring, todo: seq<Desc>)

  datatype SendStep = NicFinishes(done: seq<bool>) | WriteNext | MakeRoom(n: nat)

  predicate SendEnabled(s: Sending, step: SendStep) {
    match step
    case NicFinishes(done) => NicMay(s.ring, done)
    case WriteNext => s.todo != [] && |s.ring.window| < RING_CAP
    case MakeRoom(n) => s.todo != [] && |s.ring.window| == RING_CAP && CanReclaim(s.ring, n) && Greedy(s.ring, n)
  }

  function SendApply(s: Sending, step: SendStep): Sending
    requires SendEnabled(s, step)
  {
    match step
    case NicFinishes(done) => s.(ring := s.ring.(done := done))
    case WriteNext => Sending(AppendDesc(s.ring, s.todo[0]), s.todo[1..])
    case MakeRoom(n) => s.(ring := Reclaim(s.ring, n))
  }

  function AppendDesc(r: Ring, d: Desc): Ring {
    r.(window := r.window + [d], done := r.done + [false])
  }

  ghost predicate SendRun(states: seq<Sending>, steps: seq<SendStep>) {
    && |states| == |steps| + 1
    && forall i {:trigger steps[i]} :: 0 <= i < |steps| ==>
         SendEnabled(states[i], steps[i]) && states[i + 1] == SendApply(states[i], steps[i])
  }

  ghost predicate SendReaches(states: seq<Sending>, steps: seq<SendStep>, a: Sending, b: Sending) {
    SendRun(states, steps) && states[0] == a && states[|steps|] == b
  }

  // Some turns of the send loop lead from a to b.
  ghost predicate Leads(a: Sending, b: Sending) {
    exists states: seq<Sending>, steps: seq<SendStep> :: SendReaches(states, steps, a, b)
  }

  lemma LeadsToItself(a: Sending)
    ensures Leads(a, a)
  {
    assert SendReaches([a], [], a, a);
  }

  lemma LeadsOn(a: Sending, b: Sending, step: SendStep)
    requires Leads(a, b) && SendEnabled(b, step)
    ensures Leads(a, SendApply(b, step))
  {
    var states, steps :| SendReaches(states, steps, a, b);
    assert SendReaches(states + [SendApply(b, step)], steps + [step], a, SendApply(b, step));
  }

  function NewRequest(s: Tx, p: nat, len: nat): Request
    requires p < |s.pipes|
  {
    Request(p, AppByte(s.pipes[p], 0), len)
  }

  function BeginSend(s: Tx, p: nat, len: nat): Tx
    requires p < |s.pipes|
  {
    var req := NewRequest(s, p, len);
    s.(phase := Writing(req, Segments(req.addr, len)),
       pipes := s.pipes[p := s.pipes[p].(sent := s.pipes[p].sent + len)],
       sent := s.sent + [req])
  }

  function WriteDesc(s: Tx): Tx
    requires s.phase.Writing? && s.phase.todo != []
  {
    s.(ring := AppendDesc(s.ring, s.phase.todo[0]),
       phase := s.phase.(todo := s.phase.todo[1..]))
  }

  function PublishTail(s: Tx): Tx
    requires s.phase.Writing?
  {
    s.(ring := s.ring.(published := |s.ring.window|), phase := Recording(s.phase.req))
  }

  // One turn of the completion loop: pop the oldest recorded request and give its
  // bytes back to its pipe.
  function ReportOne(s: Tx): Tx
    requires s.ring.unreported > 0
  {
    var s1 := s.(ring := s.ring.(unreported := s.ring.unreported - 1));
    if s.pending == [] || s.pending[0].pipe >= |s.pipes| then s1.(fault := true)
    else
      var req := s.pending[0];
      var p := s.pipes[req.pipe];
      s1.(pending := s.pending[1..],
          pipes := s.pipes[req.pipe := p.(completed := p.completed + req.len)],
          reported := s.reported + [req])
  }

  function ReportAll(s: Tx): Tx
    decreases s.ring.unreported
  {
    if s.ring.unreported == 0 then s else ReportAll(ReportOne(s))
  }

  function ProcessCompletions(s: Tx, n: nat): Tx
    requires CanReclaim(s.ring, n)
  {
    ReportAll(s.(ring := Reclaim(s.ring, n)))
  }

  function RecordRequest(s: Tx): Tx
    requires s.phase.Recording?
  {
    s.(pending := s.pending + [s.phase.req], phase := Idle,
       fault := s.fault || |s.pending| >= MAX_PENDING_TX_REQUESTS)
  }

  predicate Enabled(s: Tx, step: Step) {
    match step
    case Nic(done) => NicMay(s.ring, done)
    case Begin(p, len) =>
      s.phase.Idle? && p < |s.pipes| && 0 < len <= Capacity(s.pipes[p]) && len % FLIT == 0
    case Write => s.phase.Writing? && s.phase.todo != [] && |s.ring.window| < RING_CAP
    case ReclaimWhenFull(n) =>
      s.phase.Writing? && s.phase.todo != [] && |s.ring.window| == RING_CAP && CanReclaim(s.ring, n)
      && Greedy(s.ring, n)
    case Publish => s.phase.Writing? && s.phase.todo == []
    case Process(n) =>
      CanReclaim(s.ring, n) && Greedy(s.ring, n) && (s.phase.Idle? || (s.phase.Recording? && |s.pending| >= RECORD_LIMIT))
    case Record => s.phase.Recording? && |s.pending| < RECORD_LIMIT
    case Config => s.phase.Idle? && s.ring.window == []
  }

  function Apply(s: Tx, step: Step): Tx
    requires Enabled(s, step)
  {
    match step
    case Nic(done) => s.(ring := s.ring.(done := done))
    case Begin(p, len) => BeginSend(s, p, len)
    case Write => WriteDesc(s)
    case ReclaimWhenFull(n) => s.(ring := Reclaim(s.ring, n))
    case Publish => PublishTail(s)
    case Process(n) => ProcessCompletions(s, n)
    case Record => RecordRequest(s)
    // A configuration takes a slot of the ring and is consumed before the call returns.
    case Config => s.(ring := s.ring.(head := s.ring.head + 1))
  }

  function Init(pages: seq<nat>, head: nat): Tx {
    Tx(Ring(head, [], [], 0, 0, 0), Idle, [],
       seq(|pages|, i requires 0 <= i < |pages| => Pipe(pages[i], 0, 0)), [], [], false)
  }

  // A run: every step is enabled where it is taken and leads to the next state.
  ghost predicate IsRun(states: seq<Tx>, steps: seq<Step>) {
    && |states| == |steps| + 1
    && forall i {:trigger steps[i]} :: 0 <= i < |steps| ==>
         Enabled(states[i], steps[i]) && states[i + 1] == Apply(states[i], steps[i])
  }

  // What the requests stand for.

  function Flatten(rs: seq<Request>): seq<Desc> {
    if rs == [] then [] else Segments(rs[0].addr, rs[0].len) + Flatten(rs[1..])
  }

  // Bytes that the requests in `rs` send on pipe `p`.
  function Bytes(rs: seq<Request>, p: nat): nat {
    if rs == [] then 0
    else Bytes(rs[..|rs| - 1], p) + (if rs[|rs| - 1].pipe == p then rs[|rs| - 1].len else 0)
  }

  function CountLast(ds: seq<Desc>): nat {
    if ds == [] then 0 else (if ds[0].last then 1 else 0) + CountLast(ds[1..])
  }

  function InFlight(s: Tx): seq<Request> {
    if s.phase.Idle? then [] else [s.phase.req]
  }

  // Requests sent and not yet reported.
  function Outstanding(s: Tx): seq<Request> { s.pending + InFlight(s) }

  function Todo(s: Tx): seq<Desc> { if s.phase.Writing? then s.phase.todo else [] }

  ghost predicate PagesDistinct(s: Tx) {
    forall i, j :: 0 <= i < j < |s.pipes| ==> s.pipes[i].page != s.pipes[j].page
  }

  ghost predicate RingShape(s: Tx) {
    && s.ring.published <= |s.ring.window| == |s.ring.done|
    && |s.ring.window| <= RING_CAP
    && (forall i :: s.ring.published <= i < |s.ring.done| ==> !s.ring.done[i])
    && (!s.phase.Writing? ==> s.ring.published == |s.ring.window|)
    && |s.ring.window| - s.ring.published + |Todo(s)| <= MAX_DESCS
  }

  const MAX_DESCS: nat := 17

  // The window and what is still to be written are exactly the descriptors of the
  // unfinished requests, from descriptor `skip` of the oldest one on.
  ghost predicate WindowIsRequests(r: Ring, todo: seq<Desc>, out: seq<Request>) {
    && r.unreported <= |out|
    && (if r.unreported < |out|
        then r.skip < |Segments(out[r.unreported].addr, out[r.unreported].len)|
        else r.skip == 0)
    && r.skip <= |Flatten(out[r.unreported..])|
    && r.window + todo == Flatten(out[r.unreported..])[r.skip..]
  }

  ghost predicate RequestsValid(s: Tx) {
    forall k :: 0 <= k < |s.sent| ==> RequestValid(s, k)
  }

  // Request k asks for the bytes that follow everything its pipe sent before it.
  ghost predicate RequestValid(s: Tx, k: nat)
    requires k < |s.sent|
  {
    var q := s.sent[k];
    && q.pipe < |s.pipes|
    && 0 < q.len < BUF_PAGE_SIZE && q.len % FLIT == 0
    && q.addr == s.pipes[q.pipe].page * BUF_PAGE_SIZE + Bytes(s.sent[..k], q.pipe) % BUF_PAGE_SIZE
  }

  ghost predicate PipesMatch(s: Tx) {
    forall p :: 0 <= p < |s.pipes| ==>
      && s.pipes[p].sent == Bytes(s.sent, p)
      && s.pipes[p].completed == Bytes(s.reported, p)
      && s.pipes[p].completed <= s.pipes[p].sent < s.pipes[p].completed + BUF_PAGE_SIZE
  }

  ghost predicate Inv(s: Tx) {
    && !s.fault
    && PagesDistinct(s)
    && RingShape(s)
    && s.sent == s.reported + Outstanding(s)
    && WindowIsRequests(s.ring, Todo(s), Outstanding(s))
    && RequestsValid(s)
    && PipesMatch(s)
    && |s.pending| <= RECORD_LIMIT
    && (s.ring.unreported > 0 ==> |s.ring.window| >= RING_CAP - BATCH_SIZE)
  }

  // Facts about the specification functions.

  lemma {:induction false} FlattenAppend(a: seq<Request>, b: seq<Request>)
    ensures Flatten(a + b) == Flatten(a) + Flatten(b)
  {
    if a == [] {
      assert a + b == b;
    } else {
      FlattenAppend(a[1..], b);
      assert (a + b)[1..] == a[1..] + b && (a + b)[0] == a[0];
      Associate(Segments(a[0].addr, a[0].len), Flatten(a[1..]), Flatten(b));
    }
  }

  lemma FlattenOne(r: Request)
    ensures Flatten([r]) == Segments(r.addr, r.len)
  {
    assert [r][1..] == [];
  }

  lemma {:induction false} BytesAppend(a: seq<Request>, b: seq<Request>, p: nat)
    ensures Bytes(a + b, p) == Bytes(a, p) + Bytes(b, p)
    decreases |b|
  {
    if b == [] {
      assert a + b == a;
    } else {
      BytesAppend(a, b[..|b| - 1], p);
      assert (a + b)[..|a + b| - 1] == a + b[..|b| - 1];
    }
  }

  lemma {:induction false} CountLastAppend(a: seq<Desc>, b: seq<Desc>)
    ensures CountLast(a + b) == CountLast(a) + CountLast(b)
  {
    if a == [] {
      assert a + b == b;
    } else {
      CountLastAppend(a[1..], b);
      assert (a + b)[1..] == a[1..] + b;
    }
  }

  lemma {:induction false} ReclaimShape(r: Ring, n: nat)
    requires n <= r.published <= |r.window| == |r.done|
    ensures Reclaim(r, n).published == r.published - n
    ensures Reclaim(r, n).window == r.window[n..] && Reclaim(r, n).done == r.done[n..]
    ensures Reclaim(r, n).head == r.head + n
    decreases n
  {
    if n != 0 {
      ReclaimShape(ReclaimOne(r), n - 1);
    }
  }

  lemma SplitCount(ds: seq<Desc>, n: nat)
    requires n <= |ds|
    ensures CountLast(ds) == CountLast(ds[..n]) + CountLast(ds[n..])
  {
    assert ds == ds[..n] + ds[n..];
    CountLastAppend(ds[..n], ds[n..]);
  }

  // Reclaiming moves completions from the ring to the counter, and loses none.
  lemma {:induction false} ReclaimCounts(r: Ring, n: nat)
    requires n <= r.published <= |r.window| == |r.done|
    ensures Reclaim(r, n).unreported + CountLast(Reclaim(r, n).window) == r.unreported + CountLast(r.window)
    decreases n
  {
    if n != 0 {
      ReclaimCounts(ReclaimOne(r), n - 1);
    }
  }

  // What reclaiming n descriptors adds to the counter: the requests that they end.
  lemma ReclaimUnreported(r: Ring, n: nat)
    requires n <= r.published <= |r.window| == |r.done|
    ensures Reclaim(r, n).unreported == r.unreported + CountLast(r.window[..n])
  {
    ReclaimCounts(r, n);
    ReclaimShape(r, n);
    SplitCount(r.window, n);
  }

  // The NIC has finished the first k published descriptors.
  predicate FinishedFront(r: Ring, k: nat) {
    k <= r.published <= |r.window| == |r.done| && forall i :: 0 <= i < k ==> r.done[i]
  }

  // Whatever was finished before a reclaim, up to a batch, is reclaimed and counted by it.
  lemma FinishedAreCounted(r0: Ring, mid: Ring, n: nat, k: nat)
    requires TakesAll(r0, mid, n)
    requires FinishedFront(r0, k) && k <= BATCH_SIZE
    ensures k <= n && Reclaim(mid, n).unreported >= r0.unreported + CountLast(r0.window[..k])
  {
    ReclaimUnreported(mid, n);
    SplitCount(r0.window[..n], k);
    assert r0.window[..n][..k] == r0.window[..k];
  }

  lemma {:induction false} CountLastEnd(ds: seq<Desc>)
    requires forall i :: 0 <= i < |ds| ==> (ds[i].last <==> i == |ds| - 1)
    ensures CountLast(ds) == if ds == [] then 0 else 1
  {
    if ds != [] {
      CountLastEnd(ds[1..]);
    }
  }

  // A state that some run reaches, from pipes with pages of their own and a ring whose
  // NIC register starts anywhere.
  ghost predicate Reachable(s: Tx) {
    exists states: seq<Tx>, steps: seq<Step> :: Reaches(states, steps, s)
  }

  ghost predicate IsInitial(s: Tx) {
    exists pages: seq<nat>, head: nat :: Distinct(pages) && s == Init(pages, head)
  }

  ghost predicate Distinct(pages: seq<nat>) {
    forall i, j :: 0 <= i < j < |pages| ==> pages[i] != pages[j]
  }

  ghost predicate Reaches(states: seq<Tx>, steps: seq<Step>, s: Tx) {
    IsRun(states, steps) && IsInitial(states[0]) && states[|steps|] == s
  }

  lemma ReachableStep(s: Tx, step: Step)
    requires Reachable(s) && Enabled(s, step)
    ensures Reachable(Apply(s, step))
  {
    var states, steps :| Reaches(states, steps, s);
    assert Reaches(states + [Apply(s, step)], steps + [step], Apply(s, step));
  }

  // Turns of the send loop are steps of the machine.
  lemma {:induction false} ReachableSend(s: Tx, states: seq<Sending>, steps: seq<SendStep>, k: nat)
    requires Reachable(s) && s.phase.Writing? && SendRun(states, steps) && k <= |steps|
    requires states[0] == Sending(s.ring, s.phase.todo)
    ensures Reachable(s.(ring := states[k].ring, phase := s.phase.(todo := states[k].todo)))
  {
    if k == 0 {
      assert s.(ring := states[0].ring, phase := s.phase.(todo := states[0].todo)) == s;
    } else {
      ReachableSend(s, states, steps, k - 1);
      var t := s.(ring := states[k - 1].ring, phase := s.phase.(todo := states[k - 1].todo));
      match steps[k - 1]
      case NicFinishes(done) => ReachableStep(t, Nic(done));
      case WriteNext => ReachableStep(t, Write);
      case MakeRoom(n) => ReachableStep(t, ReclaimWhenFull(n));
    }
  }

  lemma ReachableSent(s: Tx, r: Ring)
    requires Reachable(s) && s.phase.Writing? && Leads(Sending(s.ring, s.phase.todo), Sending(r, []))
    ensures Reachable(s.(ring := r.(published := |r.window|), phase := Recording(s.phase.req)))
  {
    var states, steps :| SendReaches(states, steps, Sending(s.ring, s.phase.todo), Sending(r, []));
    ReachableSend(s, states, steps, |steps|);
    ReachableStep(s.(ring := r, phase := s.phase.(todo := [])), Publish);
  }

  lemma ReachableInit(pages: seq<nat>, head: nat)
    requires Distinct(pages)
    ensures Reachable(Init(pages, head))
  {
    assert Reaches([Init(pages, head)], [], Init(pages, head));
  }
}
