// The life of the bytes of one RX/TX pipe: written by the NIC, confirmed by the
// application, sent back in place, completed, and given back to the NIC - with every
// step, and completion processing in the middle of a send, interleaved in any order.
module ZeroCopy {
  import opened Consts
  import P = TxProtocol
  import TxSafety

  // Byte counters since the pipe was allocated, the remembered TX capacity, and the
  // bytes of a send that has begun and whose capacity update is still to come.
  datatype Zc = Zc(written: nat, confirmed: nat, sent: nat, completed: nat, freed: nat,
                   lastCapacity: nat, sending: nat)

  datatype Step =
    | NicWrites(n: nat)
    | Confirm(n: nat)
    | SendBegins(n: nat)
    | Completes(n: nat)
    | ProcessCompletions
    | SendEnds

  function TxCapacity(z: Zc): nat { P.Capacity(P.Pipe(0, z.sent, z.completed)) }

  predicate Enabled(z: Zc, step: Step) {
    match step
    // The NIC keeps one flit of the ring unused.
    case NicWrites(n) => z.written + n <= z.freed + MAX_CAPACITY
    case Confirm(n) => z.confirmed + n <= z.written
    case SendBegins(n) => z.sending == 0 && n > 0 && z.sent + n <= z.confirmed
    case Completes(n) => z.completed + n <= z.sent
    case ProcessCompletions => true
    case SendEnds => z.sending > 0
  }

  function Apply(z: Zc, step: Step): Zc {
    match step
    case NicWrites(n) => z.(written := z.written + n)
    case Confirm(n) => z.(confirmed := z.confirmed + n)
    case SendBegins(n) => z.(sent := z.sent + n, sending := n)
    case Completes(n) => z.(completed := z.completed + n)
    case ProcessCompletions =>
      if TxCapacity(z) > z.lastCapacity
      then z.(freed := z.freed + (TxCapacity(z) - z.lastCapacity), lastCapacity := TxCapacity(z))
      else z
    case SendEnds => z.(lastCapacity := (z.lastCapacity - z.sending) % U32, sending := 0)
  }

  const Start := Zc(0, 0, 0, 0, 0, BUF_PAGE_SIZE - 1, 0)

  ghost predicate IsRun(states: seq<Zc>, steps: seq<Step>) {
    && |states| == |steps| + 1
    && states[0] == Start
    && forall i {:trigger steps[i]} :: 0 <= i < |steps| ==>
         Enabled(states[i], steps[i]) && states[i + 1] == Apply(states[i], steps[i])
  }

  ghost predicate Inv(z: Zc) {
    && z.freed <= z.completed <= z.sent <= z.confirmed <= z.written <= z.freed + MAX_CAPACITY
    && z.sending <= z.lastCapacity
    && z.lastCapacity + (z.completed - z.freed) == TxCapacity(z) + z.sending
  }

  lemma StepKeepsInv(z: Zc, step: Step)
    requires Inv(z) && Enabled(z, step)
    ensures Inv(Apply(z, step))
  {
    var z' := Apply(z, step);
    TxSafety.CapacityValue(P.Pipe(0, z.sent, z.completed));
    TxSafety.CapacityValue(P.Pipe(0, z'.sent, z'.completed));
  }

  // RX space still being transmitted is never given back, in any run; the remembered
  // capacity always accounts exactly for what completed and was not yet given back,
  // and taking a send off it never wraps below zero.
  lemma {:induction false} RxSpaceSafe(states: seq<Zc>, steps: seq<Step>, k: nat)
    requires IsRun(states, steps) && k < |states|
    ensures Inv(states[k])
  {
    if k == 0 {
      TxSafety.CapacityValue(P.Pipe(0, 0, 0));
    } else {
      RxSpaceSafe(states, steps, k - 1);
      StepKeepsInv(states[k - 1], steps[k - 1]);
    }
  }

  // Processing completions outside a send gives everything completed back.
  lemma IdleProcessingFreesAll(z: Zc)
    requires Inv(z) && z.sending == 0
    ensures Apply(z, ProcessCompletions).freed == z.completed
  {
  }

  // A transmit step moves the counters of a pipe only as this machine allows: a begun
  // send adds its bytes, and completions never run ahead of what was sent.
  lemma TransmitStepProjects(s: P.Tx, step: P.Step, p: nat)
    requires P.Reachable(s) && P.Enabled(s, step) && p < |s.pipes|
    ensures var t := P.Apply(s, step);
            && p < |t.pipes|
            && s.pipes[p].completed <= t.pipes[p].completed <= t.pipes[p].sent
            && t.pipes[p].sent == s.pipes[p].sent + (if step.Begin? && step.pipe == p then step.len else 0)
  {
    var t := P.Apply(s, step);
    P.ReachableStep(s, step);
    TxSafety.ReachableInv(t);
    if step.Process? {
      TxSafety.ReportAllFrame(s.(ring := P.Reclaim(s.ring, step.n)));
    }
  }
}
