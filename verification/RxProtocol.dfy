// The receive protocol over unbounded counters: the NIC writes flits into the ring of
// a pipe while it sees room, posts notifications into the shared notification buffer,
// the application consumes notifications, receives, and gives space back. Any number
// of pipes, any interleaving.
module RxProtocol {
  import opened Consts

  type Flit = seq<bv8>

  datatype Pipe = Pipe(
    stream: seq<Flit>,     // history: everything the NIC wrote
    buf: seq<Flit>,        // the ring in memory
    notified: nat,         // flits announced by posted notifications
    pending: nat,          // flits announced by consumed notifications
    confirmed: nat,        // flits the application has received
    freed: nat,            // flits given back to the NIC
    received: seq<Flit>)   // history: everything Recv returned, in order

  datatype Notif = Notif(pipe: nat, tail: nat)

  datatype Rx = Rx(
    pipes: seq<Pipe>,
    head: nat,             // notifications consumed so far
    posted: seq<Notif>)    // notifications posted and not yet consumed

  datatype Step =
    | NicWrite(p: nat, flit: Flit)
    | NicNotify(p: nat)
    | Consume
    | Recv(p: nat, n: nat)
    | Free(p: nat, n: nat)

  function Place(i: nat): nat { i % ENSO_PIPE_SIZE }

  // `n` flits of a ring from index `from` on. Past the end of the buffer the mirrored
  // mapping shows its beginning again.
  function Slice(buf: seq<Flit>, from: nat, n: nat): (r: seq<Flit>)
    requires |buf| == ENSO_PIPE_SIZE
    ensures |r| == n
  {
    seq(n, i requires 0 <= i < n => buf[Place(from + i)])
  }

  predicate Enabled(s: Rx, step: Step) {
    match step
    case NicWrite(p, _) =>
      p < |s.pipes| && |s.pipes[p].stream| < s.pipes[p].freed + ENSO_PIPE_SIZE - 1
      && |s.pipes[p].buf| == ENSO_PIPE_SIZE
    case NicNotify(p) =>
      p < |s.pipes| && s.pipes[p].notified < |s.pipes[p].stream| && |s.posted| < NOTIFICATION_BUF_SIZE - 1
    case Consume => s.posted != [] && s.posted[0].pipe < |s.pipes|
    case Recv(p, n) =>
      p < |s.pipes| && s.pipes[p].confirmed + n <= s.pipes[p].pending && |s.pipes[p].buf| == ENSO_PIPE_SIZE
    case Free(p, n) => p < |s.pipes| && s.pipes[p].freed + n <= s.pipes[p].confirmed
  }

  function Apply(s: Rx, step: Step): Rx
    requires Enabled(s, step)
  {
    match step
    case NicWrite(p, flit) =>
      var q := s.pipes[p];
      s.(pipes := s.pipes[p := q.(stream := q.stream + [flit], buf := q.buf[Place(|q.stream|) := flit])])
    case NicNotify(p) =>
      var q := s.pipes[p];
      s.(pipes := s.pipes[p := q.(notified := |q.stream|)], posted := s.posted + [Notif(p, |q.stream|)])
    case Consume =>
      var n := s.posted[0];
      s.(pipes := s.pipes[n.pipe := s.pipes[n.pipe].(pending := n.tail)],
         head := s.head + 1, posted := s.posted[1..])
    case Recv(p, n) =>
      var q := s.pipes[p];
      s.(pipes := s.pipes[p := q.(confirmed := q.confirmed + n,
                                  received := q.received + Slice(q.buf, q.confirmed, n))])
    case Free(p, n) =>
      s.(pipes := s.pipes[p := s.pipes[p].(freed := s.pipes[p].freed + n)])
  }

  function EmptyPipe(buf: seq<Flit>): Pipe { Pipe([], buf, 0, 0, 0, 0, []) }

  ghost predicate IsInitial(s: Rx) {
    && s.posted == []
    && forall p :: 0 <= p < |s.pipes| ==>
         s.pipes[p] == EmptyPipe(s.pipes[p].buf) && |s.pipes[p].buf| == ENSO_PIPE_SIZE
  }

  ghost predicate IsRun(states: seq<Rx>, steps: seq<Step>) {
    && |states| == |steps| + 1
    && forall i {:trigger steps[i]} :: 0 <= i < |steps| ==>
         Enabled(states[i], steps[i]) && states[i + 1] == Apply(states[i], steps[i])
  }

  ghost predicate Reaches(states: seq<Rx>, steps: seq<Step>, s: Rx) {
    IsRun(states, steps) && IsInitial(states[0]) && states[|steps|] == s
  }

  ghost predicate Reachable(s: Rx) {
    exists states: seq<Rx>, steps: seq<Step> :: Reaches(states, steps, s)
  }

  lemma ReachableStep(s: Rx, step: Step)
    requires Reachable(s) && Enabled(s, step)
    ensures Reachable(Apply(s, step))
  {
    var states, steps :| Reaches(states, steps, s);
    assert Reaches(states + [Apply(s, step)], steps + [step], Apply(s, step));
  }

  lemma ReachableInit(s: Rx)
    requires IsInitial(s)
    ensures Reachable(s)
  {
    assert Reaches([s], [], s);
  }

  // The counters of a pipe are ordered, the ring holds the unfreed part of the stream,
  // and what was received is a prefix of what was written.
  ghost predicate PipeInv(q: Pipe) {
    && q.freed <= q.confirmed <= q.pending <= q.notified <= |q.stream| <= q.freed + ENSO_PIPE_SIZE - 1
    && |q.buf| == ENSO_PIPE_SIZE
    && (forall i :: q.freed <= i < |q.stream| ==> q.buf[Place(i)] == q.stream[i])
    && q.received == q.stream[..q.confirmed]
  }

  // Posted notifications of a pipe lie between what it consumed and what was
  // announced, each further than the one before.
  ghost predicate PostedInv(s: Rx) {
    && |s.posted| < NOTIFICATION_BUF_SIZE
    && (forall k :: 0 <= k < |s.posted| ==>
          && s.posted[k].pipe < |s.pipes|
          && s.pipes[s.posted[k].pipe].pending < s.posted[k].tail <= s.pipes[s.posted[k].pipe].notified)
    && (forall j, k :: 0 <= j < k < |s.posted| && s.posted[j].pipe == s.posted[k].pipe ==>
          s.posted[j].tail < s.posted[k].tail)
  }

  ghost predicate Inv(s: Rx) {
    (forall p :: 0 <= p < |s.pipes| ==> PipeInv(s.pipes[p])) && PostedInv(s)
  }

  lemma PlacesDiffer(i: nat, j: nat)
    requires i < j < i + ENSO_PIPE_SIZE
    ensures Place(i) != Place(j)
  {
  }

  lemma WriteKeeps(q: Pipe, flit: Flit)
    requires PipeInv(q) && |q.stream| < q.freed + ENSO_PIPE_SIZE - 1
    ensures PipeInv(q.(stream := q.stream + [flit], buf := q.buf[Place(|q.stream|) := flit]))
  {
    var q' := q.(stream := q.stream + [flit], buf := q.buf[Place(|q.stream|) := flit]);
    forall i | q'.freed <= i < |q'.stream| ensures q'.buf[Place(i)] == q'.stream[i] {
      if i < |q.stream| {
        PlacesDiffer(i, |q.stream|);
      }
    }
    assert q'.stream[..q.confirmed] == q.stream[..q.confirmed];
  }

  // What a receive shows is the next part of the stream, across the end of the ring.
  lemma SliceIsStream(q: Pipe, n: nat)
    requires PipeInv(q) && q.confirmed + n <= q.pending
    ensures Slice(q.buf, q.confirmed, n) == q.stream[q.confirmed..q.confirmed + n]
  {
    forall i | 0 <= i < n ensures Slice(q.buf, q.confirmed, n)[i] == q.stream[q.confirmed..q.confirmed + n][i] {
      assert q.buf[Place(q.confirmed + i)] == q.stream[q.confirmed + i];
    }
  }

  lemma RecvKeeps(q: Pipe, n: nat)
    requires PipeInv(q) && q.confirmed + n <= q.pending
    ensures PipeInv(q.(confirmed := q.confirmed + n, received := q.received + Slice(q.buf, q.confirmed, n)))
  {
    SliceIsStream(q, n);
    assert q.stream[..q.confirmed] + q.stream[q.confirmed..q.confirmed + n] == q.stream[..q.confirmed + n];
  }

  lemma WriteStep(s: Rx, p: nat, flit: Flit)
    requires Inv(s) && Enabled(s, NicWrite(p, flit))
    ensures Inv(Apply(s, NicWrite(p, flit)))
  {
    assert PipeInv(s.pipes[p]);
    WriteKeeps(s.pipes[p], flit);
  }

  lemma NotifyStep(s: Rx, p: nat)
    requires Inv(s) && Enabled(s, NicNotify(p))
    ensures Inv(Apply(s, NicNotify(p)))
  {
    assert PipeInv(s.pipes[p]);
  }

  lemma ConsumeStep(s: Rx)
    requires Inv(s) && Enabled(s, Consume)
    ensures Inv(Apply(s, Consume))
  {
    assert PipeInv(s.pipes[s.posted[0].pipe]);
    var t := Apply(s, Consume);
    forall k | 0 <= k < |t.posted|
      ensures t.pipes[t.posted[k].pipe].pending < t.posted[k].tail
    {
      assert t.posted[k] == s.posted[k + 1];
    }
  }

  lemma RecvStep(s: Rx, p: nat, n: nat)
    requires Inv(s) && Enabled(s, Recv(p, n))
    ensures Inv(Apply(s, Recv(p, n)))
  {
    assert PipeInv(s.pipes[p]);
    RecvKeeps(s.pipes[p], n);
  }

  lemma FreeStep(s: Rx, p: nat, n: nat)
    requires Inv(s) && Enabled(s, Free(p, n))
    ensures Inv(Apply(s, Free(p, n)))
  {
    assert PipeInv(s.pipes[p]);
  }

  lemma StepKeepsInv(s: Rx, step: Step)
    requires Inv(s) && Enabled(s, step)
    ensures Inv(Apply(s, step))
  {
    match step
    case NicWrite(p, flit) => WriteStep(s, p, flit);
    case NicNotify(p) => NotifyStep(s, p);
    case Consume => ConsumeStep(s);
    case Recv(p, n) => RecvStep(s, p, n);
    case Free(p, n) => FreeStep(s, p, n);
  }

  lemma {:induction false} RunKeepsInv(states: seq<Rx>, steps: seq<Step>, k: nat)
    requires IsRun(states, steps) && IsInitial(states[0]) && k <= |steps|
    ensures Inv(states[k])
  {
    if k > 0 {
      RunKeepsInv(states, steps, k - 1);
      StepKeepsInv(states[k - 1], steps[k - 1]);
    }
  }

  lemma ReachableInv(s: Rx)
    requires Reachable(s)
    ensures Inv(s)
  {
    var states, steps :| Reaches(states, steps, s);
    RunKeepsInv(states, steps, |steps|);
  }

  // RX stream refinement: in every reachable state of any number of pipes the counters
  // are ordered, the NIC never writes over an unfreed flit, and everything received so
  // far is, without gap or overlap, the beginning of what the NIC wrote.
  lemma StreamRefinement(s: Rx, p: nat)
    requires Reachable(s) && p < |s.pipes|
    ensures var q := s.pipes[p];
            && q.freed <= q.confirmed <= q.pending <= q.notified <= |q.stream| <= q.freed + ENSO_PIPE_SIZE - 1
            && q.received == q.stream[..q.confirmed]
            && |q.buf| == ENSO_PIPE_SIZE
            && Slice(q.buf, q.freed, |q.stream| - q.freed) == q.stream[q.freed..]
  {
    ReachableInv(s);
    var q := s.pipes[p];
    assert PipeInv(q);
    var live := Slice(q.buf, q.freed, |q.stream| - q.freed);
    forall i | 0 <= i < |live| ensures live[i] == q.stream[q.freed..][i] {
      assert q.buf[Place(q.freed + i)] == q.stream[q.freed + i];
    }
  }
}
