// The software backend: the application sends requests through one queue and blocks
// for the reply on another, except for register writes, which are posted and never
// answered. The backend serves requests in order and answers every other one once.
module Ipc {

  datatype NotifType =
    | KWrite | KRead | KTranslAddr | KAllocatePipe | KAllocateNotifBuf | KGetNbFallbackQueues
    | KSetRrStatus | KGetRrStatus | KFreeNotifBuf | KFreePipe

  datatype Msg = Msg(kind: NotifType, address: nat, value: nat)

  datatype App = Idle | Pushing(req: Msg) | Awaiting(req: Msg)

  datatype Backend = Polling | Answering(reply: Msg)

  datatype Ipc = Ipc(
    capacity: nat,
    toBackend: seq<Msg>,
    fromBackend: seq<Msg>,
    app: App,
    backend: Backend,
    served: seq<Msg>,           // history: requests the backend took, in order
    issued: seq<Msg>,           // history: requests the application pushed, in order
    answers: seq<Msg>,          // history: answers the backend gave, in order
    delivered: seq<Msg>,        // history: replies the application popped, in order
    mismatch: bool)             // a reply failed the type or address check

  datatype Step =
    | Issue(req: Msg)    // the application starts a call
    | Push               // it stores the request; only while there is room
    | Take(value: nat)   // the backend takes a request, and picks the value of its answer
    | Answer             // it stores the answer; only while there is room
    | PopReply           // the application takes a reply and checks it

  predicate Enabled(s: Ipc, step: Step) {
    match step
    case Issue(_) => s.app.Idle?
    case Push => s.app.Pushing? && |s.toBackend| < s.capacity
    case Take(_) => s.backend.Polling? && s.toBackend != []
    case Answer => s.backend.Answering? && |s.fromBackend| < s.capacity
    case PopReply => s.app.Awaiting? && s.fromBackend != []
  }

  function Apply(s: Ipc, step: Step): Ipc
    requires Enabled(s, step)
  {
    match step
    case Issue(req) => s.(app := Pushing(req))
    case Push =>
      var req := s.app.req;
      s.(toBackend := s.toBackend + [req], issued := s.issued + [req],
         app := if req.kind == KWrite then Idle else Awaiting(req))
    case Take(v) =>
      var req := s.toBackend[0];
      s.(toBackend := s.toBackend[1..], served := s.served + [req],
         backend := if req.kind == KWrite then Polling else Answering(req.(value := v)),
         answers := if req.kind == KWrite then s.answers else s.answers + [req.(value := v)])
    case Answer =>
      s.(fromBackend := s.fromBackend + [s.backend.reply], backend := Polling)
    case PopReply =>
      var reply := s.fromBackend[0];
      s.(fromBackend := s.fromBackend[1..], app := Idle, delivered := s.delivered + [reply],
         mismatch := s.mismatch || !Matches(s.app.req, reply))
  }

  predicate Matches(req: Msg, reply: Msg) {
    reply.kind == req.kind && reply.address == req.address
  }

  predicate AllWrites(ms: seq<Msg>) {
    forall i :: 0 <= i < |ms| ==> ms[i].kind == KWrite
  }

  // The requests that get an answer.
  function Asks(ms: seq<Msg>): seq<Msg> {
    if ms == [] then []
    else Asks(ms[..|ms| - 1]) + (if ms[|ms| - 1].kind == KWrite then [] else [ms[|ms| - 1]])
  }

  lemma {:induction false} AsksAppend(a: seq<Msg>, b: seq<Msg>)
    ensures Asks(a + b) == Asks(a) + Asks(b)
    decreases |b|
  {
    if b == [] {
      assert a + b == a;
    } else {
      AsksAppend(a, b[..|b| - 1]);
      assert (a + b)[..|a + b| - 1] == a + b[..|b| - 1];
    }
  }

  ghost predicate AllMatch(reqs: seq<Msg>, replies: seq<Msg>) {
    |replies| == |reqs| && forall i :: 0 <= i < |reqs| ==> Matches(reqs[i], replies[i])
  }

  // Answers on their way to the application.
  function OnTheWay(s: Ipc): seq<Msg> {
    s.fromBackend + (if s.backend.Answering? then [s.backend.reply] else [])
  }

  // Where the one request that waits for an answer is.
  ghost predicate AwaitedSomewhere(s: Ipc, req: Msg) {
    || (s.toBackend != [] && s.toBackend[|s.toBackend| - 1] == req
        && AllWrites(s.toBackend[..|s.toBackend| - 1]) && s.backend.Polling? && s.fromBackend == [])
    || (s.toBackend == [] && s.backend.Answering? && Matches(req, s.backend.reply) && s.fromBackend == [])
    || (s.toBackend == [] && s.backend.Polling? && |s.fromBackend| == 1 && Matches(req, s.fromBackend[0]))
  }

  ghost predicate FlowInv(s: Ipc) {
    && !s.mismatch
    && s.capacity > 0
    && |s.toBackend| <= s.capacity
    && (s.app.Awaiting? ==> s.app.req.kind != KWrite && AwaitedSomewhere(s, s.app.req))
    && (!s.app.Awaiting? ==> AllWrites(s.toBackend) && s.backend.Polling? && s.fromBackend == [])
  }

  ghost predicate HistoryInv(s: Ipc) {
    && s.issued == s.served + s.toBackend
    && s.answers == s.delivered + OnTheWay(s)
    && AllMatch(Asks(s.served), s.answers)
  }

  ghost predicate Inv(s: Ipc) { FlowInv(s) && HistoryInv(s) }

  lemma FlowKept(s: Ipc, step: Step)
    requires FlowInv(s) && Enabled(s, step)
    ensures FlowInv(Apply(s, step))
  {
    var t := Apply(s, step);
    match step
    case Push =>
      assert t.toBackend[..|t.toBackend| - 1] == s.toBackend;
    case Take(v) =>
      assert s.toBackend == [s.toBackend[0]] + t.toBackend;
      if s.app.Awaiting? && t.toBackend != [] {
        assert t.toBackend[..|t.toBackend| - 1] == s.toBackend[..|s.toBackend| - 1][1..];
      }
    case _ =>
  }

  lemma TakeHistory(s: Ipc, v: nat)
    requires HistoryInv(s) && Enabled(s, Take(v)) && OnTheWay(s) == []
    ensures HistoryInv(Apply(s, Take(v)))
  {
    var t := Apply(s, Take(v));
    var req := s.toBackend[0];
    assert s.toBackend == [req] + t.toBackend;
    AsksPush(s.served, req);
    assert t.issued == s.served + [req] + t.toBackend;
    assert s.answers == s.delivered + [] == s.delivered;
    if req.kind != KWrite {
      AllMatchPush(Asks(s.served), s.answers, req, req.(value := v));
    }
  }

  lemma AsksPush(ms: seq<Msg>, m: Msg)
    ensures Asks(ms + [m]) == if m.kind == KWrite then Asks(ms) else Asks(ms) + [m]
  {
    assert (ms + [m])[..|ms|] == ms;
  }

  lemma AllMatchPush(reqs: seq<Msg>, replies: seq<Msg>, req: Msg, reply: Msg)
    requires AllMatch(reqs, replies) && Matches(req, reply)
    ensures AllMatch(reqs + [req], replies + [reply])
  {
  }

  lemma HistoryKept(s: Ipc, step: Step)
    requires Inv(s) && Enabled(s, step)
    ensures HistoryInv(Apply(s, step))
  {
    match step
    case Take(v) => TakeHistory(s, v);
    case _ =>
  }

  lemma StepKeepsInv(s: Ipc, step: Step)
    requires Inv(s) && Enabled(s, step)
    ensures Inv(Apply(s, step))
  {
    FlowKept(s, step);
    HistoryKept(s, step);
  }

  function Start(capacity: nat): Ipc {
    Ipc(capacity, [], [], Idle, Polling, [], [], [], [], false)
  }

  ghost predicate IsRun(states: seq<Ipc>, steps: seq<Step>) {
    && |states| == |steps| + 1
    && (exists cap: nat :: cap > 0 && states[0] == Start(cap))
    && forall i {:trigger steps[i]} :: 0 <= i < |steps| ==>
         Enabled(states[i], steps[i]) && states[i + 1] == Apply(states[i], steps[i])
  }

  lemma {:induction false} RunKeepsInv(states: seq<Ipc>, steps: seq<Step>, k: nat)
    requires IsRun(states, steps) && k < |states|
    ensures Inv(states[k])
  {
    if k > 0 {
      RunKeepsInv(states, steps, k - 1);
      StepKeepsInv(states[k - 1], steps[k - 1]);
    }
  }

  // In every run, with writes posted in between at will: at most one reply is in
  // flight, none while no call waits, every reply popped is that of the call that
  // waits, requests are served in the order in which they were issued, and the k-th
  // reply popped is the backend's answer to the k-th request that asks for one.
  lemma ReplyMatching(states: seq<Ipc>, steps: seq<Step>, k: nat)
    requires IsRun(states, steps) && k < |states|
    ensures var s := states[k];
            && !s.mismatch
            && |s.fromBackend| + (if s.backend.Answering? then 1 else 0) <= 1
            && (!s.app.Awaiting? ==> s.fromBackend == [] && s.backend.Polling?)
            && (s.app.Awaiting? && s.fromBackend != [] ==> Matches(s.app.req, s.fromBackend[0]))
            && s.served <= s.issued
            && s.delivered <= s.answers
            && |s.answers| <= |Asks(s.issued)|
            && forall i :: 0 <= i < |s.answers| ==> Matches(Asks(s.issued)[i], s.answers[i])
  {
    RunKeepsInv(states, steps, k);
    AsksAppend(states[k].served, states[k].toBackend);
  }

  // A call never waits in vain: until its reply can be popped there is a step to take,
  // and only finitely many backend steps are ahead of it.
  function Distance(s: Ipc): nat {
    2 * |s.toBackend| + (if s.backend.Answering? then 1 else 0)
  }

  lemma WaitingMakesProgress(s: Ipc)
    requires Inv(s) && !s.app.Idle?
    ensures Enabled(s, Push) || Enabled(s, PopReply) || Enabled(s, Take(0)) || Enabled(s, Answer)
    ensures forall v :: Enabled(s, Take(v)) ==> Distance(Apply(s, Take(v))) < Distance(s)
    ensures Enabled(s, Answer) ==> Distance(Apply(s, Answer)) < Distance(s)
  {
  }

  class DevBackend {
    var s: Ipc
    var patience: nat  // the environment: polls that may pass before the backend moves

    constructor (capacity: nat)
      requires capacity > 0
      ensures Inv(s) && s.app.Idle?
    {
      s := Start(capacity);
      patience := 0;
    }

    // The backend process runs for a while, or not at all.
    method BackendMayRun()
      requires Inv(s)
      modifies this
      ensures Inv(s) && s.app == old(s.app) && s.issued == old(s.issued) && s.delivered == old(s.delivered)
      ensures |s.toBackend| <= |old(s).toBackend| && s.capacity == old(s.capacity)
      ensures Distance(s) < Distance(old(s)) || (s == old(s) && patience < old(patience))
           || (s == old(s) && Distance(s) == 0) || (s == old(s) && s.fromBackend != [])
    {
      if patience > 0 {
        patience := patience - 1;
        return;
      }
      patience := *;
      if s.backend.Answering? {
        if |s.fromBackend| < s.capacity {
          StepKeepsInv(s, Answer);
          s := Apply(s, Answer);
        }
      } else if s.toBackend != [] {
        var v: int := *;
        var step := Take(if v < 0 then 0 else v);
        StepKeepsInv(s, step);
        s := Apply(s, step);
      }
    }

    // Stores the request, blocking while the queue is full.
    method PushRequest(req: Msg)
      requires Inv(s) && s.app.Idle?
      modifies this
      ensures Inv(s) && s.issued == old(s.issued) + [req] && s.delivered == old(s.delivered)
      ensures s.app == if req.kind == KWrite then Idle else Awaiting(req)
    {
      StepKeepsInv(s, Issue(req));
      s := Apply(s, Issue(req));
      while |s.toBackend| == s.capacity
        invariant Inv(s) && s.app == Pushing(req) && s.issued == old(s.issued) && s.delivered == old(s.delivered)
        decreases Distance(s), patience
      {
        BackendMayRun();
      }
      StepKeepsInv(s, Push);
      s := Apply(s, Push);
    }

    // Posts a register write.
    method MmioWrite32(addr: nat, value: nat)
      requires Inv(s) && s.app.Idle?
      modifies this
      ensures Inv(s) && s.app.Idle? && s.issued == old(s.issued) + [Msg(KWrite, addr, value)]
      ensures s.delivered == old(s.delivered)
    {
      PushRequest(Msg(KWrite, addr, value));
    }

    // Any blocking call: push, then poll until the reply is there. It is the backend's
    // last answer, and with it every answer has been delivered.
    method Call(req: Msg) returns (reply: Msg)
      requires Inv(s) && s.app.Idle? && req.kind != KWrite
      modifies this
      ensures Inv(s) && s.app.Idle? && s.issued == old(s.issued) + [req]
      ensures Matches(req, reply) && s.delivered == old(s.delivered) + [reply] == s.answers
    {
      PushRequest(req);
      while s.fromBackend == []
        invariant Inv(s) && s.app == Awaiting(req) && s.issued == old(s.issued) + [req]
        invariant s.delivered == old(s.delivered)
        decreases Distance(s), patience
      {
        BackendMayRun();
      }
      reply := s.fromBackend[0];
      StepKeepsInv(s, PopReply);
      s := Apply(s, PopReply);
    }

    method MmioRead32(addr: nat) returns (value: nat)
      requires Inv(s) && s.app.Idle?
      modifies this
      ensures Inv(s) && s.app.Idle? && s.issued == old(s.issued) + [Msg(KRead, addr, 0)]
      ensures s.delivered == old(s.delivered) + [Msg(KRead, addr, value)] == s.answers
    {
      var result := Call(Msg(KRead, addr, 0));
      assert result.kind == KRead && result.address == addr;
      return result.value;
    }
  }
}
