// The software backend over its two shared-memory queues, at the grain of their memory
// accesses. The application is the producer of one queue and the consumer of the other,
// the backend the other way round, and their accesses interleave in any order. Every
// such run is a run of Ipc, whose queues are sequences.
module IpcFine {
  import opened Ipc
  import S = Spsc

  datatype Fine = Fine(
    to: S.Queue<Msg>,
    from: S.Queue<Msg>,
    app: App,
    backend: Backend,
    served: seq<Msg>,
    issued: seq<Msg>,
    answers: seq<Msg>,
    delivered: seq<Msg>,
    mismatch: bool)

  datatype FineStep =
    | AppIssue(req: Msg)
    | AppPush(access: S.Step<Msg>)
    | AppPop(access: S.Step<Msg>)
    | BackendPop(access: S.Step<Msg>, value: nat)
    | BackendPush(access: S.Step<Msg>)

  predicate AppBetweenCalls(f: Fine) { f.to.producer.Ready? && f.from.consumer.Waiting? }

  predicate BackendBetweenCalls(f: Fine) { f.from.producer.Ready? && f.to.consumer.Waiting? }

  // Each thread makes one access after the other, in the order of its code.
  predicate FineEnabled(f: Fine, step: FineStep) {
    match step
    case AppIssue(_) => f.app.Idle? && AppBetweenCalls(f)
    case AppPush(a) =>
      && S.Enabled(f.to, a) && (a.PushCheck? || a.PushStore? || a.PushAdvance?)
      && (a.PushCheck? ==> f.app.Pushing? && a.value == f.app.req && AppBetweenCalls(f))
    case AppPop(a) =>
      && S.Enabled(f.from, a) && (a.PopCheck? || a.PopRead? || a.PopClear? || a.PopAdvance?)
      && (a.PopCheck? ==> f.app.Awaiting? && AppBetweenCalls(f))
    case BackendPop(a, _) =>
      && S.Enabled(f.to, a) && (a.PopCheck? || a.PopRead? || a.PopClear? || a.PopAdvance?)
      && (a.PopCheck? ==> f.backend.Polling? && BackendBetweenCalls(f))
    case BackendPush(a) =>
      && S.Enabled(f.from, a) && (a.PushCheck? || a.PushStore? || a.PushAdvance?)
      && (a.PushCheck? ==> f.backend.Answering? && a.value == f.backend.reply && BackendBetweenCalls(f))
  }

  function FineApply(f: Fine, step: FineStep): Fine
    requires FineEnabled(f, step)
  {
    match step
    case AppIssue(req) => f.(app := Pushing(req))
    case AppPush(a) =>
      var f1 := f.(to := S.Apply(f.to, a));
      if !a.PushStore? then f1
      else
        var req := f.to.producer.value;
        f1.(issued := f.issued + [req], app := if req.kind == KWrite then Idle else Awaiting(req))
    case AppPop(a) =>
      var f1 := f.(from := S.Apply(f.from, a));
      if !a.PopClear? then f1
      else
        var reply := f.from.consumer.value;
        f1.(app := Idle, delivered := f.delivered + [reply],
            mismatch := f.mismatch || !f.app.Awaiting? || !Matches(f.app.req, reply))
    case BackendPop(a, v) =>
      var f1 := f.(to := S.Apply(f.to, a));
      if !a.PopClear? then f1
      else
        var req := f.to.consumer.value;
        f1.(served := f.served + [req],
            backend := if req.kind == KWrite then Polling else Answering(req.(value := v)),
            answers := if req.kind == KWrite then f.answers else f.answers + [req.(value := v)])
    case BackendPush(a) =>
      var f1 := f.(from := S.Apply(f.from, a));
      if a.PushStore? then f1.(backend := Polling) else f1
  }

  // The state of Ipc that a state stands for.
  ghost function Abs(f: Fine): Ipc
    requires S.Inv(f.to) && S.Inv(f.from)
  {
    Ipc(|f.to.buf|, S.Contents(f.to), S.Contents(f.from), f.app, f.backend,
        f.served, f.issued, f.answers, f.delivered, f.mismatch)
  }

  // Where the threads are in their calls.
  ghost predicate ThreadsOk(f: Fine) {
    && (f.to.producer.Checked? ==> f.app == Pushing(f.to.producer.value))
    && (f.from.consumer.Seen? || f.from.consumer.Read? ==> f.app.Awaiting?)
    && (f.from.producer.Checked? ==> f.backend == Answering(f.from.producer.value))
    && (f.to.consumer.Seen? || f.to.consumer.Read? ==> f.backend.Polling?)
  }

  ghost predicate FineInv(f: Fine) {
    && S.Inv(f.to) && S.Inv(f.from) && |f.to.buf| == |f.from.buf|
    && ThreadsOk(f)
    && Inv(Abs(f))
  }

  datatype Option<T> = None | Some(value: T)

  // The step of Ipc that takes place at an access, if any.
  function Effect(step: FineStep): Option<Step> {
    match step
    case AppIssue(req) => Some(Issue(req))
    case AppPush(a) => if a.PushStore? then Some(Push) else None
    case AppPop(a) => if a.PopClear? then Some(PopReply) else None
    case BackendPop(a, v) => if a.PopClear? then Some(Take(v)) else None
    case BackendPush(a) => if a.PushStore? then Some(Answer) else None
  }

  lemma QueuesKeep(f: Fine, step: FineStep)
    requires FineInv(f) && FineEnabled(f, step)
    ensures var g := FineApply(f, step);
            S.Inv(g.to) && S.Inv(g.from) && |g.to.buf| == |f.to.buf| && |g.from.buf| == |f.from.buf|
  {
    match step
    case AppIssue(_) =>
    case AppPush(a) => S.StepKeepsInv(f.to, a); S.TakesEffectAtOnce(f.to, a);
    case AppPop(a) => S.StepKeepsInv(f.from, a); S.TakesEffectAtOnce(f.from, a);
    case BackendPop(a, _) => S.StepKeepsInv(f.to, a); S.TakesEffectAtOnce(f.to, a);
    case BackendPush(a) => S.StepKeepsInv(f.from, a); S.TakesEffectAtOnce(f.from, a);
  }

  lemma ThreadsKeep(f: Fine, step: FineStep)
    requires FineInv(f) && FineEnabled(f, step)
    ensures ThreadsOk(FineApply(f, step))
  {
  }

  // The refinement: every access either is the step of Ipc that takes effect at it,
  // enabled there, or does not change what the state stands for.
  lemma StepRefines(f: Fine, step: FineStep)
    requires FineInv(f) && FineEnabled(f, step)
    ensures S.Inv(FineApply(f, step).to) && S.Inv(FineApply(f, step).from)
    ensures match Effect(step)
            case None => Abs(FineApply(f, step)) == Abs(f)
            case Some(s) => Enabled(Abs(f), s) && Abs(FineApply(f, step)) == Apply(Abs(f), s)
  {
    QueuesKeep(f, step);
    match step
    case AppIssue(_) =>
    case AppPush(a) => S.TakesEffectAtOnce(f.to, a);
    case AppPop(a) => S.TakesEffectAtOnce(f.from, a);
    case BackendPop(a, _) => S.TakesEffectAtOnce(f.to, a);
    case BackendPush(a) => S.TakesEffectAtOnce(f.from, a);
  }

  lemma FineStepKeepsInv(f: Fine, step: FineStep)
    requires FineInv(f) && FineEnabled(f, step)
    ensures FineInv(FineApply(f, step))
  {
    QueuesKeep(f, step);
    ThreadsKeep(f, step);
    StepRefines(f, step);
    if Effect(step).Some? {
      StepKeepsInv(Abs(f), Effect(step).value);
    }
  }

  ghost predicate FineInitial(f: Fine) {
    && S.IsInitial(f.to) && S.IsInitial(f.from) && |f.to.buf| == |f.from.buf|
    && f == Fine(f.to, f.from, Idle, Polling, [], [], [], [], false)
  }

  ghost predicate IsFineRun(states: seq<Fine>, steps: seq<FineStep>) {
    && |states| == |steps| + 1
    && FineInitial(states[0])
    && forall i {:trigger steps[i]} :: 0 <= i < |steps| ==>
         FineEnabled(states[i], steps[i]) && states[i + 1] == FineApply(states[i], steps[i])
  }

  lemma FineInitialInv(f: Fine)
    requires FineInitial(f)
    ensures FineInv(f)
  {
    S.InitialInv(f.to);
    S.InitialInv(f.from);
  }

  lemma {:induction false} FineRunKeepsInv(states: seq<Fine>, steps: seq<FineStep>, k: nat)
    requires IsFineRun(states, steps) && k <= |steps|
    ensures FineInv(states[k])
  {
    if k == 0 {
      FineInitialInv(states[0]);
    } else {
      FineRunKeepsInv(states, steps, k - 1);
      FineStepKeepsInv(states[k - 1], steps[k - 1]);
    }
  }

  // Reply matching over every interleaving of the memory accesses: no assertion on a
  // reply ever fails, at most one reply is in the queue, none while no call waits, the
  // reply an application reads is that of its own request, and the k-th reply delivered
  // answers the k-th request that asks for one.
  lemma FineReplyMatching(states: seq<Fine>, steps: seq<FineStep>, k: nat)
    requires IsFineRun(states, steps) && k <= |steps|
    ensures var f := states[k];
            && !f.mismatch
            && |f.from.popped| <= |f.from.pushed| <= |f.from.popped| + 1
            && (!f.app.Awaiting? ==> f.from.popped == f.from.pushed)
            && (f.from.consumer.Read? ==> f.app.Awaiting? && Matches(f.app.req, f.from.consumer.value))
            && f.delivered <= f.answers && |f.answers| <= |Asks(f.issued)|
            && forall i :: 0 <= i < |f.answers| ==> Matches(Asks(f.issued)[i], f.answers[i])
  {
    FineRunKeepsInv(states, steps, k);
    var f := states[k];
    var s := Abs(f);
    AsksAppend(s.served, s.toBackend);
    assert |S.Contents(f.from)| <= 1;
    assert f.from.consumer.Read? ==> f.from.consumer.value == S.Contents(f.from)[0];
  }
}
