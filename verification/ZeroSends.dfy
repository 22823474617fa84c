// Sends of zero bytes. They pass the size checks, publish no descriptor and still record
// a request, so a completion they wait for never comes. This is the transmit machine
// with such sends admitted.
module ZeroSends {
  import opened Consts
  import opened Segmentation
  import opened TxProtocol
  import opened TxSafety

  predicate WideEnabled(s: Tx, step: Step) {
    if step.Begin?
    then s.phase.Idle? && step.pipe < |s.pipes| && step.len <= Capacity(s.pipes[step.pipe]) && step.len % FLIT == 0
    else Enabled(s, step)
  }

  function WideApply(s: Tx, step: Step): Tx
    requires WideEnabled(s, step)
  {
    if step.Begin? then BeginSend(s, step.pipe, step.len) else Apply(s, step)
  }

  ghost predicate IsWideRun(states: seq<Tx>, steps: seq<Step>) {
    && |states| == |steps| + 1
    && IsInitial(states[0])
    && forall i {:trigger steps[i]} :: 0 <= i < |steps| ==>
         WideEnabled(states[i], steps[i]) && states[i + 1] == WideApply(states[i], steps[i])
  }

  predicate IsZeroSend(step: Step) { step.Begin? && step.len == 0 }

  function ZeroSendsIn(steps: seq<Step>): nat {
    if steps == [] then 0
    else ZeroSendsIn(steps[..|steps| - 1]) + (if IsZeroSend(steps[|steps| - 1]) then 1 else 0)
  }

  // Requests for which no completion is counted or to come.
  function Unanswered(s: Tx): int {
    |Outstanding(s)| - s.ring.unreported - CountLast(s.ring.window) - CountLast(Todo(s))
  }

  ghost predicate PipesExist(s: Tx) {
    forall i :: 0 <= i < |Outstanding(s)| ==> Outstanding(s)[i].pipe < |s.pipes|
  }

  ghost predicate Sound(s: Tx) {
    !s.fault && PipesExist(s) && s.ring.published <= |s.ring.window| == |s.ring.done|
  }

  ghost predicate WideInv(s: Tx) {
    && Sound(s)
    && Unanswered(s) >= 0
    && (Unanswered(s) == 0 ==> Inv(s))
  }

  lemma BeginCounts(s: Tx, p: nat, len: nat)
    requires s.phase.Idle? && p < |s.pipes| && Sound(s)
    ensures var t := BeginSend(s, p, len);
            Sound(t) && Unanswered(t) == Unanswered(s) + (if len == 0 then 1 else 0)
  {
    var t := BeginSend(s, p, len);
    SegmentsShape(t.phase.req.addr, len);
    CountLastEnd(t.phase.todo);
    assert Outstanding(s) == s.pending;
  }

  lemma WriteCounts(s: Tx)
    requires s.phase.Writing? && s.phase.todo != [] && Sound(s)
    ensures Sound(WriteDesc(s)) && Unanswered(WriteDesc(s)) == Unanswered(s)
  {
    assert Outstanding(WriteDesc(s)) == Outstanding(s);
    var d := s.phase.todo[0];
    CountLastAppend(s.ring.window, [d]);
    assert [d][1..] == [];
    assert CountLast([d]) == (if d.last then 1 else 0) + CountLast([]);
  }

  // Handing out completions pops as many requests.
  lemma {:induction false} ReportAllPops(s: Tx)
    requires !s.fault && s.ring.unreported <= |s.pending|
    requires forall i :: 0 <= i < |s.pending| ==> s.pending[i].pipe < |s.pipes|
    ensures !ReportAll(s).fault && ReportAll(s).pending == s.pending[s.ring.unreported..]
    decreases s.ring.unreported
  {
    if s.ring.unreported != 0 {
      ReportAllPops(ReportOne(s));
    }
  }

  // There is a recorded request for every completion counted: because one of them goes
  // unanswered, or because the ordinary invariant holds.
  lemma RoomToReport(s: Tx, n: nat)
    requires WideInv(s) && Enabled(s, Process(n))
    ensures Reclaim(s.ring, n).unreported <= |s.pending|
  {
    ReclaimCounts(s.ring, n);
    if Unanswered(s) == 0 {
      ReclaimedFewEnough(s, n);
    }
  }

  lemma ProcessCounts(s: Tx, n: nat)
    requires WideInv(s) && Enabled(s, Process(n))
    ensures var t := ProcessCompletions(s, n);
            Sound(t) && Unanswered(t) == Unanswered(s)
  {
    var r := Reclaim(s.ring, n);
    var s1 := s.(ring := r);
    RoomToReport(s, n);
    ReclaimCounts(s.ring, n);
    ReclaimShape(s.ring, n);
    assert forall i :: 0 <= i < |s.pending| ==> s.pending[i] == Outstanding(s)[i];
    ReportAllPops(s1);
    ReportAllFrame(s1);
    var t := ReportAll(s1);
    assert Outstanding(t) == Outstanding(s)[r.unreported..];
  }

  lemma QuietCounts(s: Tx, step: Step)
    requires Sound(s) && Enabled(s, step) && !step.Begin? && !step.Write? && !step.Process?
    ensures var t := Apply(s, step);
            Sound(t) && Unanswered(t) == Unanswered(s)
  {
    if step.ReclaimWhenFull? {
      ReclaimCounts(s.ring, step.n);
      ReclaimShape(s.ring, step.n);
    }
    assert Outstanding(Apply(s, step)) == Outstanding(s);
  }

  // Every step leaves the number of unanswered requests as it is, except that a send of
  // zero bytes adds one.
  lemma StepCounts(s: Tx, step: Step)
    requires WideInv(s) && WideEnabled(s, step)
    ensures Sound(WideApply(s, step))
    ensures Unanswered(WideApply(s, step)) == Unanswered(s) + (if IsZeroSend(step) then 1 else 0)
  {
    match step
    case Begin(p, len) => BeginCounts(s, p, len);
    case Write => WriteCounts(s);
    case Process(n) => ProcessCounts(s, n);
    case _ => QuietCounts(s, step);
  }

  lemma WideStep(s: Tx, step: Step)
    requires WideInv(s) && WideEnabled(s, step)
    ensures WideInv(WideApply(s, step))
  {
    StepCounts(s, step);
    if Unanswered(s) == 0 && !IsZeroSend(step) {
      StepKeepsInv(s, step);
    }
  }

  lemma InitialWideInv(s: Tx)
    requires IsInitial(s)
    ensures WideInv(s) && Unanswered(s) == 0
  {
    var pages, head :| Distinct(pages) && s == Init(pages, head);
    InitInv(pages, head);
    assert Outstanding(s) == [];
  }

  // Over every run: the requests that will never be answered are exactly the sends of
  // zero bytes so far, and nothing else goes wrong with the pending ring.
  lemma {:induction false} UnansweredAreZeroSends(states: seq<Tx>, steps: seq<Step>, k: nat)
    requires IsWideRun(states, steps) && k <= |steps|
    ensures WideInv(states[k]) && Unanswered(states[k]) == ZeroSendsIn(steps[..k])
  {
    if k == 0 {
      InitialWideInv(states[0]);
    } else {
      UnansweredAreZeroSends(states, steps, k - 1);
      assert steps[..k][..k - 1] == steps[..k - 1];
      StepCounts(states[k - 1], steps[k - 1]);
      WideStep(states[k - 1], steps[k - 1]);
    }
  }

  lemma {:induction false} NoZeroSends(steps: seq<Step>)
    ensures ZeroSendsIn(steps) == 0 <==> forall i :: 0 <= i < |steps| ==> !IsZeroSend(steps[i])
  {
    if steps != [] {
      NoZeroSends(steps[..|steps| - 1]);
    }
  }

  // Completions and requests are in balance if and only if no send had zero bytes.
  lemma ConservedIffNoZeroSend(states: seq<Tx>, steps: seq<Step>, k: nat)
    requires IsWideRun(states, steps) && k <= |steps|
    ensures |Outstanding(states[k])|
              == states[k].ring.unreported + CountLast(states[k].ring.window) + CountLast(Todo(states[k]))
       <==> forall i :: 0 <= i < k ==> !IsZeroSend(steps[i])
  {
    UnansweredAreZeroSends(states, steps, k);
    NoZeroSends(steps[..k]);
    assert forall i :: 0 <= i < k ==> steps[..k][i] == steps[i];
  }

  // A send of zero bytes, taken to its end: an idle device with an empty ring then waits
  // for a completion that never comes.
  lemma ZeroSendLeavesRequest(s: Tx, p: nat)
    requires Reachable(s) && s.phase.Idle? && s.ring.window == [] && p < |s.pipes|
    ensures WideEnabled(s, Begin(p, 0))
    ensures var t := WideApply(s, Begin(p, 0));
            && Enabled(t, Publish) && Enabled(Apply(t, Publish), Record)
            && var u := Apply(Apply(t, Publish), Record);
               u.phase.Idle? && |u.pending| == 1 && u.ring.window == [] && u.ring.unreported == 0
  {
    ReachableInv(s);
    OutstandingLens(s);
    assert s.pending == [] by {
      if s.pending != [] {
        FlattenCountLast(Outstanding(s)[s.ring.unreported..], s.ring.skip);
      }
    }
  }
}
