// The two ends of the shared-memory queue as objects over one buffer, and the scans
// with which a process that joins an existing queue finds its index.
module SharedQueue {
  import opened ModArith
  import opened Spsc

  datatype Option<T> = None | Some(value: T)

  class QueueProducer<T(0)> {
    const buf: array<Element<T>>
    var tail: nat

    constructor (buf: array<Element<T>>)
      requires buf.Length > 0
      ensures this.buf == buf && tail == 0
    {
      this.buf, tail := buf, 0;
    }

    // Pushes unless the slot at the tail is occupied. The queue holds `pushed` without
    // its first `popped` values.
    method Push(data: T, ghost pushed: seq<T>, ghost popped: nat) returns (ret: int)
      requires BufHolds(buf[..], pushed, popped) && tail == |pushed| % buf.Length
      modifies this`tail, buf
      ensures ret == if |pushed| < popped + buf.Length then 0 else -1
      ensures ret == 0 ==>
                BufHolds(buf[..], pushed + [data], popped) && tail == (|pushed| + 1) % buf.Length
      ensures ret == -1 ==> buf[..] == old(buf[..]) && tail == old(tail)
    {
      SignalsExact(buf[..], pushed, popped);
      if buf[tail].signal {
        return -1;
      }
      ghost var before := buf[..];
      StoreKeeps(before, pushed, popped, data);
      buf[tail] := Element(true, data);
      assert buf[..] == before[tail := Element(true, data)];
      ModStep(|pushed|, buf.Length);
      tail := (tail + 1) % buf.Length;
      return 0;
    }

    // Joins an existing queue: the scan stops at the lowest free slot, and fails
    // exactly when there is none.
    method Synchronize() returns (ret: int)
      requires buf.Length > 0 && tail == 0
      modifies this`tail
      ensures ret == if AllOccupied(buf[..]) then -1 else 0
      ensures ret == 0 ==> IsLowestFree(buf[..], tail)
    {
      for i := 0 to buf.Length
        invariant forall k :: 0 <= k < i ==> buf[k].signal
        invariant tail == if i == buf.Length then 0 else i
      {
        if buf[i].signal {
          WrapIndex(i + 1, buf.Length);
          tail := (i + 1) % buf.Length;
        }
        if !buf[tail].signal {
          break;
        }
      }
      return if tail == 0 && buf[0].signal then -1 else 0;
    }
  }

  lemma WrapIndex(i: nat, cap: nat)
    requires 0 < cap && i <= cap
    ensures i % cap == if i == cap then 0 else i
  {
    if i == cap {
      ModUnique(i, cap, 1, 0);
    } else {
      ModUnique(i, cap, 0, i);
    }
  }

  class QueueConsumer<T(0)> {
    const buf: array<Element<T>>
    var head: nat

    constructor (buf: array<Element<T>>)
      requires buf.Length > 0
      ensures this.buf == buf && head == 0
    {
      this.buf, head := buf, 0;
    }

    // The value at the front, left in the queue.
    method Front(ghost pushed: seq<T>, ghost popped: nat) returns (r: Option<T>)
      requires BufHolds(buf[..], pushed, popped) && head == popped % buf.Length
      ensures r == if popped < |pushed| then Some(pushed[popped]) else None
    {
      SignalsExact(buf[..], pushed, popped);
      if !buf[head].signal {
        return None;
      }
      return Some(buf[head].data);
    }

    method Pop(ghost pushed: seq<T>, ghost popped: nat) returns (r: Option<T>)
      requires BufHolds(buf[..], pushed, popped) && head == popped % buf.Length
      modifies this`head, buf
      ensures r == if popped < |pushed| then Some(pushed[popped]) else None
      ensures r.Some? ==> BufHolds(buf[..], pushed, popped + 1) && head == (popped + 1) % buf.Length
      ensures r.None? ==> buf[..] == old(buf[..]) && head == old(head)
    {
      SignalsExact(buf[..], pushed, popped);
      if !buf[head].signal {
        return None;
      }
      var data := buf[head].data;
      ghost var before := buf[..];
      ClearKeeps(before, pushed, popped);
      buf[head] := buf[head].(signal := false);
      assert buf[..] == before[head := before[head].(signal := false)];
      ModStep(popped, buf.Length);
      head := (head + 1) % buf.Length;
      return Some(data);
    }

    // Joins an existing queue: the scan goes back from the last slot and stops after
    // the highest free one. A full queue is refused; one that is not full is refused
    // exactly when slot 0 is occupied and the last slot is free.
    method Synchronize() returns (ret: int)
      requires buf.Length > 0 && head == 0
      modifies this`head
      ensures ret == 0 || ret == -1
      ensures AllOccupied(buf[..]) ==> ret == -1
      ensures !AllOccupied(buf[..]) ==> (ret == -1 <==> buf[0].signal && !buf[buf.Length - 1].signal)
      ensures !AllOccupied(buf[..]) ==> IsAfterHighestFree(buf[..], head)
    {
      for i := buf.Length downto 0
        invariant forall k :: i <= k < buf.Length ==> buf[k].signal
        invariant head == if i == buf.Length then 0 else i
      {
        if buf[i].signal {
          head := i;
        }
        PrevIndex(head, buf.Length);
        var prev := (head - 1) % buf.Length;
        if !buf[prev].signal {
          break;
        }
      }
      return if head == 0 && buf[0].signal then -1 else 0;
    }
  }

  lemma PrevIndex(head: nat, cap: nat)
    requires head < cap
    ensures (head - 1) % cap == if head == 0 then cap - 1 else head - 1
  {
    if head == 0 {
      ModUnique(-1, cap, -1, cap - 1);
    } else {
      ModUnique(head - 1, cap, 0, head - 1);
    }
  }

  predicate AllOccupied<T>(buf: seq<Element<T>>) {
    forall k :: 0 <= k < |buf| ==> buf[k].signal
  }

  ghost predicate IsLowestFree<T>(buf: seq<Element<T>>, i: nat) {
    i < |buf| && !buf[i].signal && forall k :: 0 <= k < i ==> buf[k].signal
  }

  // The slot after the highest free one; slot 0 when that is the last slot.
  ghost predicate IsAfterHighestFree<T>(buf: seq<Element<T>>, i: nat) {
    && i < |buf|
    && var f := if i == 0 then |buf| - 1 else i - 1;
       !buf[f].signal && forall k :: f < k < |buf| ==> buf[k].signal
  }

  // How the scans relate to the queue they join. The queue holds `pushed` without its
  // first `popped` values, and is not full.

  ghost predicate OccupiedAt<T>(buf: seq<Element<T>>, pushed: seq<T>, popped: nat, j: nat)
    requires |buf| > 0 && popped <= |pushed|
  {
    Pos(|buf|, popped, j) < |pushed| - popped
  }

  lemma SlotSignal<T>(buf: seq<Element<T>>, pushed: seq<T>, popped: nat, j: nat)
    requires BufHolds(buf, pushed, popped) && j < |buf|
    ensures buf[j].signal <==> OccupiedAt(buf, pushed, popped, j)
  {
    assert SlotHolds(buf[j], pushed, popped, Pos(|buf|, popped, j));
  }

  // Going round from the head: where position of a slot grows by one.
  lemma PosNextSlot(cap: nat, head: nat, j: nat)
    requires 0 < cap && j + 1 < cap
    ensures Pos(cap, head, j + 1) == if Pos(cap, head, j) == cap - 1 then 0 else Pos(cap, head, j) + 1
  {
    var i := Pos(cap, head, j);
    var k := (j - head) / cap;
    assert j - head == cap * k + i;
    if i == cap - 1 {
      assert j + 1 - head == cap * (k + 1);
      ModUnique(j + 1 - head, cap, k + 1, 0);
    } else {
      ModUnique(j + 1 - head, cap, k, i + 1);
    }
  }

  // If slots 0 .. j are all occupied, the place of slot j in the run is j beyond that
  // of slot 0.
  lemma {:induction false} OccupiedPrefix<T>(buf: seq<Element<T>>, pushed: seq<T>, popped: nat, j: nat)
    requires BufHolds(buf, pushed, popped) && j < |buf| && |pushed| < popped + |buf|
    requires forall k :: 0 <= k <= j ==> buf[k].signal
    ensures Pos(|buf|, popped, j) == Pos(|buf|, popped, 0) + j
  {
    if j > 0 {
      OccupiedPrefix(buf, pushed, popped, j - 1);
      SlotSignal(buf, pushed, popped, j - 1);
      PosNextSlot(|buf|, popped, j - 1);
    }
  }

  // A producer that joins finds the slot after the run exactly when slot 0 is occupied
  // or the run ends at the end of the buffer.
  lemma ProducerSyncExact<T>(buf: seq<Element<T>>, pushed: seq<T>, popped: nat, tail: nat)
    requires BufHolds(buf, pushed, popped) && |pushed| < popped + |buf| && IsLowestFree(buf, tail)
    ensures buf[0].signal ==> tail == |pushed| % |buf|
    ensures !buf[0].signal ==> tail == 0
    ensures tail == |pushed| % |buf| <==> (buf[0].signal || |pushed| % |buf| == 0)
  {
    var cap, n := |buf|, |pushed| - popped;
    if buf[0].signal {
      OccupiedPrefix(buf, pushed, popped, tail - 1);
      SlotSignal(buf, pushed, popped, tail - 1);
      SlotSignal(buf, pushed, popped, tail);
      PosNextSlot(cap, popped, tail - 1);
      PosInjective(cap, popped, tail, n);
    }
  }

  // A queue is full exactly when every slot is occupied.
  lemma FullIffAllOccupied<T>(buf: seq<Element<T>>, pushed: seq<T>, popped: nat)
    requires BufHolds(buf, pushed, popped)
    ensures AllOccupied(buf) <==> |pushed| == popped + |buf|
  {
    SignalsExact(buf, pushed, popped);
    forall j | 0 <= j < |buf| && |pushed| == popped + |buf| ensures buf[j].signal {
      SlotSignal(buf, pushed, popped, j);
    }
  }

  // The run of values starts at slot 0 and leaves the last slot free: then a consumer that
  // joins is refused although the queue is not full.
  lemma RefusedIffStartsAtZero<T>(buf: seq<Element<T>>, pushed: seq<T>, popped: nat)
    requires BufHolds(buf, pushed, popped) && |pushed| < popped + |buf|
    ensures (buf[0].signal && !buf[|buf| - 1].signal) <==> (popped < |pushed| && popped % |buf| == 0)
  {
    var cap := |buf|;
    SignalsExact(buf, pushed, popped);
    SlotSignal(buf, pushed, popped, 0);
    SlotSignal(buf, pushed, popped, cap - 1);
    ZeroPos(cap, popped);
  }

  // Where slot 0 and the last slot lie from the head: one after the other, unless the run
  // begins between them.
  lemma ZeroPos(cap: nat, head: nat)
    requires cap > 0
    ensures Pos(cap, head, 0) == 0 <==> head % cap == 0
    ensures Pos(cap, head, 0) == 0 ==> Pos(cap, head, cap - 1) == cap - 1
    ensures Pos(cap, head, 0) > 0 ==> Pos(cap, head, cap - 1) == Pos(cap, head, 0) - 1
  {
    var i, k := Pos(cap, head, 0), (0 - head) / cap;
    assert 0 - head == cap * k + i;
    if i == 0 {
      assert head == cap * (-k) + 0;
      ModUnique(head, cap, -k, 0);
      assert cap - 1 - head == cap * k + (cap - 1);
      ModUnique(cap - 1 - head, cap, k, cap - 1);
    } else {
      assert head == cap * (-k - 1) + (cap - i);
      ModUnique(head, cap, -k - 1, cap - i);
      assert cap - 1 - head == cap * (k + 1) + (i - 1);
      ModUnique(cap - 1 - head, cap, k + 1, i - 1);
    }
  }

  // A consumer that joins is accepted at the first slot of the run exactly when the
  // last slot is occupied, or the queue is empty and its head is at slot 0.
  lemma ConsumerSyncExact<T>(buf: seq<Element<T>>, pushed: seq<T>, popped: nat, head: nat)
    requires BufHolds(buf, pushed, popped) && |pushed| < popped + |buf| && IsAfterHighestFree(buf, head)
    ensures buf[|buf| - 1].signal ==> head == popped % |buf|
    ensures !buf[|buf| - 1].signal ==> head == 0
    ensures (!(buf[0].signal && !buf[|buf| - 1].signal) && head == popped % |buf|)
       <==> (buf[|buf| - 1].signal || (popped == |pushed| && popped % |buf| == 0))
  {
    var cap := |buf|;
    SignalsExact(buf, pushed, popped);
    if buf[cap - 1].signal {
      SlotSignal(buf, pushed, popped, head - 1);
      SlotSignal(buf, pushed, popped, head);
      PosNextSlot(cap, popped, head - 1);
      PosInjective(cap, popped, head, 0);
    }
  }

  // The first consumer to join after one push is refused.
  lemma ConsumerRefusedAfterPush()
    ensures var free, used := Element(false, 0), Element(true, 7);
            var buf := [used, free, free, free];
            BufHolds(buf, [7], 0) && !AllOccupied(buf) && buf[0].signal && !buf[3].signal
  {
    var free, used := Element(false, 0), Element(true, 7);
    var buf := [used, free, free, free];
    forall j | 0 <= j < 4 ensures SlotHolds(buf[j], [7], 0, Pos(4, 0, j)) {
      assert j == 0 || j == 1 || j == 2 || j == 3;
    }
    assert !AllOccupied(buf) by {
      assert !buf[1].signal;
    }
  }

  // A queue of four slots with one value in slot 1: the producer's scan stops at slot
  // 0, so the next value would be stored behind the consumer.
  lemma SyncCanMiss()
    ensures var free, used := Element(false, 0), Element(true, 7);
            var buf := [free, used, free, free];
            && BufHolds(buf, [5, 7], 1)
            && IsLowestFree(buf, 0)
            && |[5, 7]| % |buf| != 0
  {
    var free, used := Element(false, 0), Element(true, 7);
    var buf := [free, used, free, free];
    forall j | 0 <= j < 4 ensures SlotHolds(buf[j], [5, 7], 1, Pos(4, 1, j)) {
      assert j == 0 || j == 1 || j == 2 || j == 3;
    }
  }
}
