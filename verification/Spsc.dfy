// The single-producer single-consumer queue in shared memory, at the grain of its
// memory accesses: the producer checks a slot, stores signal and data at once, and
// advances its tail; the consumer checks, reads, clears the signal and advances its
// head. The two threads interleave in any order.
module Spsc {
  import opened ModArith

  datatype Element<T> = Element(signal: bool, data: T)

  datatype ProducerPc<T> = Ready | Checked(value: T) | Stored

  datatype ConsumerPc<T> = Waiting | Seen | Read(value: T) | Cleared

  datatype Queue<T> = Queue(
    buf: seq<Element<T>>,
    tail: nat,
    head: nat,
    producer: ProducerPc<T>,
    consumer: ConsumerPc<T>,
    pushed: seq<T>,   // history: values stored, in order
    popped: seq<T>)   // history: values taken out, in order

  datatype Step<T> =
    | PushCheck(value: T)
    | PushStore
    | PushAdvance
    | PopCheck
    | PopRead
    | PopClear
    | PopAdvance

  predicate InBounds<T>(q: Queue<T>) { q.tail < |q.buf| && q.head < |q.buf| }

  predicate Enabled<T>(q: Queue<T>, step: Step<T>) {
    InBounds(q) &&
    match step
    case PushCheck(_) => q.producer.Ready?
    case PushStore => q.producer.Checked?
    case PushAdvance => q.producer.Stored?
    case PopCheck => q.consumer.Waiting?
    case PopRead => q.consumer.Seen?
    case PopClear => q.consumer.Read?
    case PopAdvance => q.consumer.Cleared?
  }

  // A check that finds the queue full, or empty, ends the call and changes nothing.
  function Apply<T>(q: Queue<T>, step: Step<T>): Queue<T>
    requires Enabled(q, step)
  {
    match step
    case PushCheck(v) => if q.buf[q.tail].signal then q else q.(producer := Checked(v))
    case PushStore =>
      q.(buf := q.buf[q.tail := Element(true, q.producer.value)],
         pushed := q.pushed + [q.producer.value], producer := Stored)
    case PushAdvance => q.(tail := (q.tail + 1) % |q.buf|, producer := Ready)
    case PopCheck => if q.buf[q.head].signal then q.(consumer := Seen) else q
    case PopRead => q.(consumer := Read(q.buf[q.head].data))
    case PopClear =>
      q.(buf := q.buf[q.head := q.buf[q.head].(signal := false)],
         popped := q.popped + [q.consumer.value], consumer := Cleared)
    case PopAdvance => q.(head := (q.head + 1) % |q.buf|, consumer := Waiting)
  }

  ghost predicate IsInitial<T>(q: Queue<T>) {
    && |q.buf| > 0
    && (forall j :: 0 <= j < |q.buf| ==> !q.buf[j].signal)
    && q.tail == q.head == 0
    && q.producer.Ready? && q.consumer.Waiting?
    && q.pushed == q.popped == []
  }

  ghost predicate IsRun<T(!new)>(states: seq<Queue<T>>, steps: seq<Step<T>>) {
    && |states| == |steps| + 1
    && IsInitial(states[0])
    && forall i {:trigger steps[i]} :: 0 <= i < |steps| ==>
         Enabled(states[i], steps[i]) && states[i + 1] == Apply(states[i], steps[i])
  }

  // Which of the values not yet taken out slot j holds: the distance from the head.
  function Pos(cap: nat, head: nat, j: nat): nat
    requires cap > 0
  {
    (j - head) % cap
  }

  // A slot is occupied exactly when it lies in the circular run of the values pushed
  // and not popped, and then holds the value of its place in that run.
  ghost predicate SlotHolds<T>(e: Element<T>, pushed: seq<T>, popped: nat, pos: nat) {
    if popped + pos < |pushed| then e == Element(true, pushed[popped + pos]) else !e.signal
  }

  ghost predicate BufHolds<T>(buf: seq<Element<T>>, pushed: seq<T>, popped: nat) {
    && |buf| > 0
    && popped <= |pushed| <= popped + |buf|
    && forall j :: 0 <= j < |buf| ==> SlotHolds(buf[j], pushed, popped, Pos(|buf|, popped, j))
  }

  ghost predicate Inv<T>(q: Queue<T>) {
    && BufHolds(q.buf, q.pushed, |q.popped|)
    && q.popped == q.pushed[..|q.popped|]
    && (q.producer.Stored? ==> q.pushed != [])
    && (q.consumer.Cleared? ==> q.popped != [])
    && q.tail == (|q.pushed| - (if q.producer.Stored? then 1 else 0)) % |q.buf|
    && q.head == (|q.popped| - (if q.consumer.Cleared? then 1 else 0)) % |q.buf|
    && (q.producer.Checked? ==> |q.pushed| < |q.popped| + |q.buf|)
    && (q.consumer.Seen? || q.consumer.Read? ==> |q.popped| < |q.pushed|)
    && (q.consumer.Read? ==> q.consumer.value == q.pushed[|q.popped|])
  }

  // Slot head + i holds the i-th value of the run.
  lemma PosOfIndex(cap: nat, head: nat, i: nat)
    requires i < cap
    ensures (head + i) % cap < cap && Pos(cap, head, (head + i) % cap) == i
  {
    var k := (head + i) / cap;
    var j := (head + i) % cap;
    assert head + i == cap * k + j;
    assert j - head == cap * (-k) + i;
    ModUnique(j - head, cap, -k, i);
  }

  lemma PosInjective(cap: nat, head: nat, j: nat, i: nat)
    requires j < cap && i < cap && Pos(cap, head, j) == i
    ensures j == (head + i) % cap
  {
    var k := (j - head) / cap;
    assert j - head == cap * k + i;
    assert head + i == cap * (-k) + j;
    ModUnique(head + i, cap, -k, j);
  }

  // Moving the head past one value moves every other value one place nearer.
  lemma PosAfterPop(cap: nat, head: nat, j: nat)
    requires j < cap
    ensures Pos(cap, head, j) == 0 ==> Pos(cap, head + 1, j) == cap - 1
    ensures Pos(cap, head, j) > 0 ==> Pos(cap, head + 1, j) == Pos(cap, head, j) - 1
  {
    var i := Pos(cap, head, j);
    var k := (j - head) / cap;
    assert j - head == cap * k + i;
    if i == 0 {
      assert j - (head + 1) == cap * (k - 1) + (cap - 1);
      ModUnique(j - (head + 1), cap, k - 1, cap - 1);
    } else {
      ModUnique(j - (head + 1), cap, k, i - 1);
    }
  }

  lemma StoreKeeps<T>(buf: seq<Element<T>>, pushed: seq<T>, popped: nat, v: T)
    requires BufHolds(buf, pushed, popped) && |pushed| < popped + |buf|
    ensures BufHolds(buf[|pushed| % |buf| := Element(true, v)], pushed + [v], popped)
  {
    var cap, slot := |buf|, |pushed| % |buf|;
    var buf' := buf[slot := Element(true, v)];
    PosOfIndex(cap, popped, |pushed| - popped);
    forall j | 0 <= j < cap ensures SlotHolds(buf'[j], pushed + [v], popped, Pos(cap, popped, j)) {
      assert SlotHolds(buf[j], pushed, popped, Pos(cap, popped, j));
      if j != slot && popped + Pos(cap, popped, j) == |pushed| {
        PosInjective(cap, popped, j, |pushed| - popped);
      }
    }
  }

  lemma ClearKeeps<T>(buf: seq<Element<T>>, pushed: seq<T>, popped: nat)
    requires BufHolds(buf, pushed, popped) && popped < |pushed|
    ensures BufHolds(buf[popped % |buf| := buf[popped % |buf|].(signal := false)], pushed, popped + 1)
  {
    var cap, slot := |buf|, popped % |buf|;
    var buf' := buf[slot := buf[slot].(signal := false)];
    PosOfIndex(cap, popped, 0);
    forall j | 0 <= j < cap ensures SlotHolds(buf'[j], pushed, popped + 1, Pos(cap, popped + 1, j)) {
      PosAfterPop(cap, popped, j);
      assert SlotHolds(buf[j], pushed, popped, Pos(cap, popped, j));
      if Pos(cap, popped, j) == 0 {
        PosInjective(cap, popped, j, 0);
      }
    }
  }

  // The signals at tail and head tell exactly whether there is room and whether there
  // is a value: every slot of the buffer can be used.
  lemma SignalsExact<T>(buf: seq<Element<T>>, pushed: seq<T>, popped: nat)
    requires BufHolds(buf, pushed, popped)
    ensures buf[|pushed| % |buf|].signal <==> |pushed| == popped + |buf|
    ensures buf[popped % |buf|].signal <==> popped < |pushed|
    ensures popped < |pushed| ==> buf[popped % |buf|].data == pushed[popped]
  {
    var cap := |buf|;
    PosOfIndex(cap, popped, 0);
    assert SlotHolds(buf[popped % cap], pushed, popped, 0);
    if |pushed| < popped + cap {
      PosOfIndex(cap, popped, |pushed| - popped);
      assert SlotHolds(buf[|pushed| % cap], pushed, popped, |pushed| - popped);
    } else {
      ModUnique(|pushed|, cap, popped / cap + 1, popped % cap);
    }
  }

  lemma ProducerKeepsInv<T>(q: Queue<T>, step: Step<T>)
    requires Inv(q) && Enabled(q, step) && (step.PushCheck? || step.PushStore? || step.PushAdvance?)
    ensures Inv(Apply(q, step))
  {
    match step
    case PushCheck(v) => SignalsExact(q.buf, q.pushed, |q.popped|);
    case PushStore => StoreKeeps(q.buf, q.pushed, |q.popped|, q.producer.value);
    case PushAdvance => ModStep(|q.pushed| - 1, |q.buf|);
  }

  lemma ConsumerKeepsInv<T>(q: Queue<T>, step: Step<T>)
    requires Inv(q) && Enabled(q, step) && !(step.PushCheck? || step.PushStore? || step.PushAdvance?)
    ensures Inv(Apply(q, step))
  {
    match step
    case PopCheck => SignalsExact(q.buf, q.pushed, |q.popped|);
    case PopRead => SignalsExact(q.buf, q.pushed, |q.popped|);
    case PopClear => ClearKeeps(q.buf, q.pushed, |q.popped|);
    case PopAdvance => ModStep(|q.popped| - 1, |q.buf|);
  }

  lemma StepKeepsInv<T>(q: Queue<T>, step: Step<T>)
    requires Inv(q) && Enabled(q, step)
    ensures Inv(Apply(q, step))
  {
    if step.PushCheck? || step.PushStore? || step.PushAdvance? {
      ProducerKeepsInv(q, step);
    } else {
      ConsumerKeepsInv(q, step);
    }
  }

  lemma InitialInv<T>(q: Queue<T>)
    requires IsInitial(q)
    ensures Inv(q)
  {
    ModUnique(0, |q.buf|, 0, 0);
  }

  lemma {:induction false} RunKeepsInv<T(!new)>(states: seq<Queue<T>>, steps: seq<Step<T>>, k: nat)
    requires IsRun(states, steps) && k < |states|
    ensures Inv(states[k])
  {
    if k == 0 {
      InitialInv(states[0]);
    } else {
      RunKeepsInv(states, steps, k - 1);
      StepKeepsInv(states[k - 1], steps[k - 1]);
    }
  }

  // Linearizability over every interleaving: what was popped is, in order, the
  // beginning of what was pushed; the occupied slots are exactly the circular run of
  // the values in between; a store never hits an occupied slot and a clear never hits
  // a free one.
  lemma Linearizable<T(!new)>(states: seq<Queue<T>>, steps: seq<Step<T>>, k: nat)
    requires IsRun(states, steps) && k < |states|
    ensures var q := states[k];
            && q.popped <= q.pushed
            && |q.pushed| - |q.popped| <= |q.buf|
            && (forall j :: 0 <= j < |q.buf| ==>
                  (q.buf[j].signal <==> Pos(|q.buf|, |q.popped|, j) < |q.pushed| - |q.popped|))
            && (q.producer.Checked? ==> InBounds(q) && !q.buf[q.tail].signal)
            && (q.consumer.Read? ==> InBounds(q) && q.buf[q.head] == Element(true, q.consumer.value))
  {
    RunKeepsInv(states, steps, k);
    var q := states[k];
    SignalsExact(q.buf, q.pushed, |q.popped|);
    forall j | 0 <= j < |q.buf|
      ensures q.buf[j].signal <==> Pos(|q.buf|, |q.popped|, j) < |q.pushed| - |q.popped|
    {
      assert SlotHolds(q.buf[j], q.pushed, |q.popped|, Pos(|q.buf|, |q.popped|, j));
    }
  }

  // Whatever the other thread is doing, a push succeeds exactly when fewer values than
  // slots are in the queue, and a pop exactly when there is a value.
  lemma FullCapacityUsable<T(!new)>(states: seq<Queue<T>>, steps: seq<Step<T>>, k: nat, v: T)
    requires IsRun(states, steps) && k < |states|
    ensures var q := states[k];
            && (Enabled(q, PushCheck(v)) ==>
                  (Apply(q, PushCheck(v)).producer.Checked? <==> |q.pushed| - |q.popped| < |q.buf|))
            && (Enabled(q, PopCheck) ==>
                  (Apply(q, PopCheck).consumer.Seen? <==> |q.popped| < |q.pushed|))
  {
    RunKeepsInv(states, steps, k);
    SignalsExact(states[k].buf, states[k].pushed, |states[k].popped|);
  }

  // What is in the queue.
  ghost function Contents<T>(q: Queue<T>): seq<T>
    requires |q.popped| <= |q.pushed|
  {
    q.pushed[|q.popped|..]
  }

  // Each operation takes effect at one micro-step, on the contents as they then are: a
  // push at its store, a pop at its clear. No other micro-step changes the contents.
  lemma TakesEffectAtOnce<T>(q: Queue<T>, step: Step<T>)
    requires Inv(q) && Enabled(q, step)
    ensures var t := Apply(q, step);
            && |t.popped| <= |t.pushed| && |t.buf| == |q.buf|
            && Contents(t) == (match step
                               case PushStore => Contents(q) + [q.producer.value]
                               case PopClear => Contents(q)[if Contents(q) == [] then 0 else 1..]
                               case _ => Contents(q))
            && (step.PushStore? ==> |Contents(q)| < |q.buf|)
            && (step.PopClear? ==> Contents(q) != [] && q.consumer.value == Contents(q)[0])
  {
    StepKeepsInv(q, step);
  }
}
