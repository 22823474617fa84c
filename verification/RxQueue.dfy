// The RX half of a notification buffer pair and the RX pipes as the code keeps them:
// modular indices, a signal word per notification slot, the last known tail of every
// pipe, and the ring of pipe ids still to be visited. `st` is the protocol state the
// environment (the NIC) moves on; the application code never reads it.
module RxQueue {
  import opened Consts
  import opened RxProtocol
  import opened RxPipes
  import opened RingIndex
  import opened Flits

  datatype RxNotification = RxNotification(signal: nat, queueId: nat, tail: nat)

  // Slot contents as the NIC and the application see them: posted notifications carry
  // a signal, every other slot is clear.
  ghost predicate SlotOk(e: RxNotification, posted: seq<Notif>, pos: nat) {
    if pos < |posted|
    then e == RxNotification(1, posted[pos].pipe, Place(posted[pos].tail))
    else e.signal == 0
  }

  ghost predicate NotifMatches(buf: seq<RxNotification>, head: nat, posted: seq<Notif>) {
    && |buf| == N
    && |posted| < N
    && forall j :: 0 <= j < N ==> SlotOk(buf[j], posted, Pos(head, j))
  }

  lemma PostNotif(buf: seq<RxNotification>, head: nat, posted: seq<Notif>, n: Notif)
    requires NotifMatches(buf, head, posted) && |posted| < N - 1
    ensures NotifMatches(buf[Slot(head + |posted|) := RxNotification(1, n.pipe, Place(n.tail))], head, posted + [n])
  {
    var slot := Slot(head + |posted|);
    var buf' := buf[slot := RxNotification(1, n.pipe, Place(n.tail))];
    forall j | 0 <= j < N ensures SlotOk(buf'[j], posted + [n], Pos(head, j)) {
      PosOfSlot(head, |posted|);
      assert SlotOk(buf[j], posted, Pos(head, j));
      assert j == slot <==> Pos(head, j) == |posted|;
    }
  }

  lemma TakeNotif(buf: seq<RxNotification>, head: nat, posted: seq<Notif>)
    requires NotifMatches(buf, head, posted)
    ensures buf[Slot(head)].signal == 0 <==> posted == []
    ensures posted != [] ==>
              && buf[Slot(head)] == RxNotification(1, posted[0].pipe, Place(posted[0].tail))
              && NotifMatches(buf[Slot(head) := buf[Slot(head)].(signal := 0)], head + 1, posted[1..])
  {
    PosAfterHead(head, Slot(head));
    assert SlotOk(buf[Slot(head)], posted, 0);
    if posted != [] {
      var buf' := buf[Slot(head) := buf[Slot(head)].(signal := 0)];
      forall j | 0 <= j < N ensures SlotOk(buf'[j], posted[1..], Pos(head + 1, j)) {
        PosAfterHead(head, j);
        assert SlotOk(buf[j], posted, Pos(head, j));
      }
    }
  }

  ghost predicate IdsMatch(buf: seq<nat>, popped: nat, ids: seq<nat>) {
    && |buf| == N
    && |ids| < N
    && forall i :: 0 <= i < |ids| ==> buf[Slot(popped + i)] == ids[i]
  }

  lemma PushId(buf: seq<nat>, popped: nat, ids: seq<nat>, id: nat)
    requires IdsMatch(buf, popped, ids) && |ids| < N - 1
    ensures IdsMatch(buf[Slot(popped + |ids|) := id], popped, ids + [id])
  {
    var buf' := buf[Slot(popped + |ids|) := id];
    forall i | 0 <= i < |ids| + 1 ensures buf'[Slot(popped + i)] == (ids + [id])[i] {
      if i < |ids| {
        SlotsDiffer(popped, i, |ids|);
      }
    }
  }

  lemma PopId(buf: seq<nat>, popped: nat, ids: seq<nat>)
    requires IdsMatch(buf, popped, ids) && ids != []
    ensures buf[Slot(popped)] == ids[0] && IdsMatch(buf, popped + 1, ids[1..])
  {
    assert buf[Slot(popped + 0)] == ids[0];
    forall i | 0 <= i < |ids| - 1 ensures buf[Slot(popped + 1 + i)] == ids[1..][i] {
      assert buf[Slot(popped + (i + 1))] == ids[i + 1];
    }
  }

  // The bytes between two ring indices, by the 32-bit difference of the code.
  function AvailableBytes(tail: nat, head: nat): nat {
    (((tail - head) % U32) % ENSO_PIPE_SIZE) * FLIT
  }

  lemma AvailableExact(head: nat, n: nat)
    requires n < ENSO_PIPE_SIZE
    ensures AvailableBytes(Place(head + n), Place(head)) == n * FLIT
    ensures Place(head + n) == Place(head) <==> n == 0
  {
    var h, t := Place(head), Place(head + n);
    assert t == if h + n < ENSO_PIPE_SIZE then h + n else h + n - ENSO_PIPE_SIZE;
    assert (t - h) % U32 == if h <= t then t - h else U32 + t - h;
  }

  class RxBufPair {
    const rxBuf: array<RxNotification>
    const pendingTails: array<nat>
    const nextIds: array<nat>
    const pipes: seq<RxEnsoPipe>
    var rxHead: nat
    var idsHead: nat
    var idsTail: nat
    var st: Rx                  // read by the NIC alone; elsewhere it only specifies
    ghost var ids: seq<nat>     // pipe ids queued in nextIds
    ghost var idsPopped: nat

    ghost function Bufs(): set<array<Flit>> {
      set i | 0 <= i < |pipes| :: pipes[i].buf
    }

    ghost predicate Separate() {
      && pendingTails != nextIds
      && (forall i :: 0 <= i < |pipes| ==> pipes[i].id == i)
      && (forall i, j :: 0 <= i < j < |pipes| ==> pipes[i].buf != pipes[j].buf)
    }

    ghost predicate PipesRefine(s: Rx)
      reads pipes, Bufs()
    {
      && |s.pipes| == |pipes|
      && forall i :: 0 <= i < |pipes| ==> pipes[i].Refines(s.pipes[i])
    }

    ghost predicate TailsMatch(s: Rx)
      reads pendingTails
    {
      && pendingTails.Length >= |s.pipes|
      && forall i :: 0 <= i < |s.pipes| ==> pendingTails[i] == Place(s.pipes[i].pending)
    }

    ghost predicate Matches()
      reads this`st, rxBuf, pendingTails, pipes, Bufs()
    {
      && Separate()
      && Reachable(st)
      && PipesRefine(st)
      && TailsMatch(st)
      && NotifMatches(rxBuf[..], st.head, st.posted)
    }

    ghost predicate Valid()
      reads this, rxBuf, pendingTails, pipes, Bufs()
    {
      Matches() && rxHead == Slot(st.head) && nextIds.Length == N && idsHead < N && idsTail < N
    }

    // The id ring holds exactly the queued ids. It does as long as it is drained; an
    // application that never asks for the next pipe lets it wrap, and never reads it.
    ghost predicate IdsValid()
      reads this`ids, this`idsPopped, this`idsHead, this`idsTail, nextIds
    {
      && IdsMatch(nextIds[..], idsPopped, ids)
      && (forall i :: 0 <= i < |ids| ==> ids[i] < |pipes|)
      && idsHead == Slot(idsPopped)
      && idsTail == Slot(idsPopped + |ids|)
    }

    constructor (pipes: seq<RxEnsoPipe>)
      requires forall i :: 0 <= i < |pipes| ==>
                 && pipes[i].id == i && pipes[i].buf.Length == ENSO_PIPE_SIZE
                 && pipes[i].rxHead == 0 && pipes[i].rxTail == 0
      requires forall i, j :: 0 <= i < j < |pipes| ==> pipes[i].buf != pipes[j].buf
      requires |pipes| <= MAX_NB_FLOWS
      ensures Valid() && IsInitial(st)
      ensures IdsValid() && ids == []
    {
      nextIds := new nat[N](_ => 0);
      idsHead, idsTail, ids, idsPopped := 0, 0, [], 0;
      rxBuf := new RxNotification[N](_ => RxNotification(0, 0, 0));
      pendingTails := new nat[MAX_NB_FLOWS](_ => 0);
      this.pipes := pipes;
      rxHead := 0;
      var start := Rx(seq(|pipes|, i requires 0 <= i < |pipes| reads if 0 <= i < |pipes| then {pipes[i].buf} else {}
                                => EmptyPipe(pipes[i].buf[..])),
                      0, []);
      st := start;
      ReachableInit(start);
    }

    // The environment.

    method NicWriteFlit(p: nat, flit: Flit)
      requires Matches() && Enabled(st, NicWrite(p, flit))
      modifies this`st, Bufs()
      ensures Matches() && st == Apply(old(st), NicWrite(p, flit))
    {
      ReachableStep(st, NicWrite(p, flit));
      var place := Place(|st.pipes[p].stream|);
      var buf := pipes[p].buf;
      buf[place] := flit;
      st := Apply(st, NicWrite(p, flit));
      assert pipes[p].Refines(st.pipes[p]);
    }

    method NicPost(p: nat)
      requires Matches() && Enabled(st, NicNotify(p))
      modifies this`st, rxBuf
      ensures Matches() && st == Apply(old(st), NicNotify(p))
    {
      ReachableStep(st, NicNotify(p));
      ghost var before := rxBuf[..];
      var tail := |st.pipes[p].stream|;
      PostNotif(before, st.head, st.posted, Notif(p, tail));
      rxBuf[Slot(st.head + |st.posted|)] := RxNotification(1, p, Place(tail));
      st := Apply(st, NicNotify(p));
      assert rxBuf[..] == before[Slot(st.head + |old(st).posted|) := RxNotification(1, p, Place(tail))];
    }

    // Any number of NIC steps.
    method NicRun()
      requires Matches()
      modifies this`st, rxBuf, Bufs()
      ensures Matches() && NicOnly(old(st), st)
    {
      var k: int := *;
      for i := 0 to if k < 0 then 0 else k
        invariant Matches() && NicOnly(old(st), st)
      {
        var p: nat := *;
        var flit: Flit := *;
        if * {
          if Enabled(st, NicWrite(p, flit)) {
            NicWriteFlit(p, flit);
          }
        } else {
          if Enabled(st, NicNotify(p)) {
            NicPost(p);
          }
        }
      }
    }

    // Consumes the notification at `head`: note the pipe's new tail, queue its id.
    method ConsumeNotification(head: nat, idTail: nat, ghost track: bool) returns (nextHead: nat, nextTail: nat)
      requires Matches() && head == Slot(st.head) && st.posted != []
      requires nextIds.Length == N && idTail < N
      requires track ==> IdsMatch(nextIds[..], idsPopped, ids) && |ids| < N - 1 && idTail == Slot(idsPopped + |ids|)
      modifies this`st, this`ids, rxBuf, pendingTails, nextIds
      ensures Matches() && nextHead == Slot(st.head) && nextTail < N
      ensures Enabled(old(st), Consume) && st == Apply(old(st), Consume)
      ensures ids == old(ids) + [old(st).posted[0].pipe]
      ensures track ==> IdsMatch(nextIds[..], idsPopped, ids) && nextTail == Slot(idsPopped + |ids|)
    {
      ConsumeEnabled(st);
      ReachableStep(st, Consume);
      var cur;
      cur, nextHead := TakeSlot(head);
      pendingTails[cur.queueId] := cur.tail;
      nextTail := QueueId(cur.queueId, idTail, track);
      st := Apply(st, Consume);
    }

    // Reads the notification at the head, clears its signal and moves on.
    method TakeSlot(head: nat) returns (cur: RxNotification, nextHead: nat)
      requires NotifMatches(rxBuf[..], st.head, st.posted) && head == Slot(st.head) && st.posted != []
      modifies rxBuf
      ensures cur == RxNotification(1, st.posted[0].pipe, Place(st.posted[0].tail))
      ensures NotifMatches(rxBuf[..], st.head + 1, st.posted[1..]) && nextHead == Slot(st.head + 1)
    {
      TakeNotif(rxBuf[..], st.head, st.posted);
      cur := rxBuf[head];
      ghost var before := rxBuf[..];
      rxBuf[head] := cur.(signal := 0);
      assert rxBuf[..] == before[head := before[head].(signal := 0)];
      NextSlot(st.head);
      nextHead := Next(head);
    }

    // Remembers whose notification came; the ring is in order as long as it has room.
    method QueueId(id: nat, idTail: nat, ghost track: bool) returns (nextTail: nat)
      requires nextIds.Length == N && idTail < N
      requires track ==> IdsMatch(nextIds[..], idsPopped, ids) && |ids| < N - 1 && idTail == Slot(idsPopped + |ids|)
      modifies this`ids, nextIds
      ensures nextTail < N && ids == old(ids) + [id]
      ensures track ==> IdsMatch(nextIds[..], idsPopped, ids) && nextTail == Slot(idsPopped + |ids|)
    {
      if track {
        PushId(nextIds[..], idsPopped, ids, id);
        NextSlot(idsPopped + |ids|);
      }
      ghost var ring := nextIds[..];
      nextIds[idTail] := id;
      assert nextIds[..] == ring[idTail := id];
      nextTail := Next(idTail);
      ids := ids + [id];
    }

    // Consumes up to a batch of notifications, with the NIC at work all the time.
    method GetNewTails() returns (consumed: nat, ghost arrived: seq<nat>)
      requires Valid()
      modifies this`st, this`rxHead, this`idsTail, this`ids, rxBuf, pendingTails, nextIds, Bufs()
      ensures Valid() && Advanced(old(st), st, arrived) && Consumed(old(st), st, arrived)
      ensures consumed == |arrived| <= BATCH_SIZE && ids == old(ids) + arrived
      ensures consumed < BATCH_SIZE ==> st.posted == []
      ensures old(IdsValid() && |ids| + BATCH_SIZE < N) ==> IdsValid()
    {
      ghost var track := IdsValid() && |ids| + BATCH_SIZE < N;
      var head: nat, idTail: nat := rxHead, idsTail;
      consumed, arrived := 0, [];
      var empty := false;
      while consumed < BATCH_SIZE && !empty
        invariant Matches() && head == Slot(st.head) && idTail < N && consumed == |arrived| <= BATCH_SIZE
        invariant Advanced(old(st), st, arrived) && Consumed(old(st), st, arrived) && ids == old(ids) + arrived
        invariant empty ==> st.posted == []
        invariant track ==> IdsMatch(nextIds[..], idsPopped, ids) && idTail == Slot(idsPopped + |ids|)
        decreases BATCH_SIZE - consumed, !empty
      {
        head, idTail, empty, arrived := TakeTurn(head, idTail, old(st), arrived, track);
        consumed := consumed + (if empty then 0 else 1);
      }
      idsTail := idTail;
      rxHead := head;
      assert Matches();
    }

    // One turn of the batch loop: let the NIC run, then stop at an empty slot.
    method TakeTurn(head: nat, idTail: nat, ghost s0: Rx, ghost arrived0: seq<nat>, ghost track: bool)
        returns (nextHead: nat, nextTail: nat, empty: bool, ghost arrived: seq<nat>)
      requires Matches() && head == Slot(st.head) && nextIds.Length == N && idTail < N
      requires Advanced(s0, st, arrived0) && Consumed(s0, st, arrived0)
      requires track ==> IdsMatch(nextIds[..], idsPopped, ids) && |ids| < N - 1 && idTail == Slot(idsPopped + |ids|)
      modifies this`st, this`ids, rxBuf, pendingTails, nextIds, Bufs()
      ensures Matches() && nextHead == Slot(st.head) && nextTail < N
      ensures Advanced(s0, st, arrived) && Consumed(s0, st, arrived) && |arrived| == |arrived0| + (if empty then 0 else 1)
      ensures arrived0 <= arrived && ids == old(ids) + arrived[|arrived0|..]
      ensures empty ==> st.posted == []
      ensures track ==> IdsMatch(nextIds[..], idsPopped, ids) && nextTail == Slot(idsPopped + |ids|)
    {
      ghost var s := st;
      NicRun();
      AdvancedByNic(s0, s, st, arrived0);
      ConsumedByNic(s0, s, st, arrived0);
      TakeNotif(rxBuf[..], st.head, st.posted);
      nextHead, nextTail, empty, arrived := head, idTail, true, arrived0;
      if rxBuf[head].signal != 0 {
        s := st;
        nextHead, nextTail := ConsumeNotification(head, idTail, track);
        AdvancedByConsume(s0, s, arrived0);
        ConsumedOne(s0, s, arrived0);
        empty, arrived := false, arrived0 + [s.posted[0].pipe];
      }
    }

    // What a pipe holds that was announced and not yet received.
    method ConsumeQueue(p: nat, peek: bool) returns (start: nat, size: nat)
      requires Valid() && p < |pipes|
      modifies this`st, pipes`rxTail
      ensures Valid() && start == Place(old(st).pipes[p].confirmed)
      ensures size == (old(st).pipes[p].pending - old(st).pipes[p].confirmed) * FLIT
      ensures Enabled(old(st), Recv(p, size / FLIT))
      ensures st == if peek then old(st) else Apply(old(st), Recv(p, size / FLIT))
      ensures old(IdsValid()) ==> IdsValid()
    {
      var pipe := pipes[p];
      start := pipe.rxTail;
      var tail := pendingTails[p];
      ghost var q := st.pipes[p];
      PipeFacts(st, p);
      AvailableExact(q.confirmed, q.pending - q.confirmed);
      if tail == start {
        size := 0;
        RecvNothing(st, p);
        return;
      }
      size := AvailableBytes(tail, start);
      if !peek {
        Confirm(p, size);
      }
    }

    // Moves the tail of a pipe past `nbBytes` received bytes.
    method Confirm(p: nat, nbBytes: nat)
      requires Valid() && p < |pipes| && Enabled(st, Recv(p, nbBytes / FLIT))
      modifies this`st, pipes`rxTail
      ensures Valid() && st == Apply(old(st), Recv(p, nbBytes / FLIT))
    {
      var pipe := pipes[p];
      ReachableStep(st, Recv(p, nbBytes / FLIT));
      PlaceMoves(st.pipes[p].confirmed, nbBytes / FLIT);
      pipe.ConfirmBytes(nbBytes);
      st := Apply(st, Recv(p, nbBytes / FLIT));
      assert pipes[p].Refines(st.pipes[p]);
    }

    // Where the next bytes of the pipe are and how many, at most `maxNbBytes`. A pipe
    // that was returned as the next one relies on the tails fetched then.
    method Peek(p: nat, maxNbBytes: nat) returns (start: nat, ret: nat)
      requires Valid() && p < |pipes|
      modifies this`st, this`rxHead, this`idsTail, this`ids, rxBuf, pendingTails, nextIds, pipes`rxTail, Bufs()
      ensures Valid() && Polled(old(st), st)
      ensures pipes[p].nextPipe ==> st == old(st) && ids == old(ids) && (old(IdsValid()) ==> IdsValid())
      ensures !pipes[p].nextPipe ==> Fetched(old(st), st)
      ensures p < |st.pipes| && st.pipes[p].confirmed <= st.pipes[p].pending && start == Place(st.pipes[p].confirmed)
      ensures ret == Min((st.pipes[p].pending - st.pipes[p].confirmed) * FLIT, maxNbBytes)
      ensures Enabled(st, Recv(p, ret / FLIT))
    {
      if !pipes[p].nextPipe {
        ghost var n, arrived := GetNewTails();
        ConsumedIsFetched(old(st), st, arrived);
      }
      var size;
      start, size := ConsumeQueue(p, true);
      ret := Min(size, maxNbBytes);
    }

    // Receives: what Peek shows, confirmed. The flits are read through the mirrored
    // mapping, so they are contiguous across the end of the ring.
    method RecvBytes(p: nat, maxNbBytes: nat) returns (ret: nat, data: seq<Flit>)
      requires Valid() && p < |pipes| && maxNbBytes % FLIT == 0
      modifies this`st, this`rxHead, this`idsTail, this`ids, rxBuf, pendingTails, nextIds, pipes`rxTail, Bufs()
      ensures Valid() && |st.pipes| == |old(st).pipes|
      ensures ret == |data| * FLIT <= maxNbBytes
      ensures var q, q0 := st.pipes[p], old(st).pipes[p];
              && q.received == q0.received + data
              && q.confirmed == q0.confirmed + |data|
              && q0.confirmed + |data| <= |q.stream|
              && data == q.stream[q0.confirmed..q.confirmed]
              && q.freed == q0.freed
      ensures pipes[p].nextPipe ==>
                && Enabled(old(st), Recv(p, |data|)) && st == Apply(old(st), Recv(p, |data|))
                && ids == old(ids) && (old(IdsValid()) ==> IdsValid())
      ensures !pipes[p].nextPipe ==> Fetched(old(st), st)
      ensures ret < maxNbBytes ==> st.pipes[p].confirmed == st.pipes[p].pending
    {
      var start;
      start, ret := Peek(p, maxNbBytes);
      WholeFlits(st.pipes[p].pending - st.pipes[p].confirmed, maxNbBytes);
      if !pipes[p].nextPipe {
        FetchedThenRecv(old(st), st, p, ret / FLIT);
      }
      data := TakeBytes(p, start, ret);
    }

    method TakeBytes(p: nat, start: nat, ret: nat) returns (data: seq<Flit>)
      requires Valid() && p < |pipes| && Enabled(st, Recv(p, ret / FLIT))
      requires start == Place(st.pipes[p].confirmed)
      modifies this`st, pipes`rxTail
      ensures Valid() && st == Apply(old(st), Recv(p, ret / FLIT)) && |data| == ret / FLIT
      ensures var q := old(st).pipes[p];
              && data == Slice(q.buf, q.confirmed, ret / FLIT)
              && q.confirmed + |data| <= |q.stream|
              && data == q.stream[q.confirmed..q.confirmed + |data|]
    {
      PipeFacts(st, p);
      SliceIsStream(st.pipes[p], ret / FLIT);
      data := ReadSlice(pipes[p].buf, start, ret / FLIT, st.pipes[p].confirmed);
      Confirm(p, ret);
    }

    // Reads `n` flits at `start`, going on at the beginning of the buffer after its end.
    method ReadSlice(buf: array<Flit>, start: nat, n: nat, ghost from: nat) returns (data: seq<Flit>)
      requires buf.Length == ENSO_PIPE_SIZE && start == Place(from)
      ensures data == Slice(buf[..], from, n)
    {
      data := [];
      for i := 0 to n
        invariant data == Slice(buf[..], from, i)
      {
        PlaceMoves(from, i);
        data := data + [buf[(start + i) % ENSO_PIPE_SIZE]];
      }
    }

    // Gives received bytes back to the NIC, in whole flits.
    method FreeBytes(p: nat, nbBytes: nat)
      requires Valid() && p < |pipes| && Enabled(st, Free(p, AdvanceFlits(nbBytes)))
      modifies this`st, pipes`rxHead
      ensures Valid() && st == Apply(old(st), Free(p, AdvanceFlits(nbBytes)))
      ensures old(IdsValid()) ==> IdsValid()
    {
      var pipe := pipes[p];
      var n := AdvanceFlits(nbBytes);
      ReachableStep(st, Free(p, n));
      PlaceMoves(st.pipes[p].freed, n);
      pipe.rxHead := (pipe.rxHead + n) % ENSO_PIPE_SIZE;
      st := Apply(st, Free(p, n));
    }

    // Gives everything received back.
    method Clear(p: nat)
      requires Valid() && p < |pipes|
      modifies this`st, pipes`rxHead
      ensures Valid() && p < |st.pipes| && st.pipes[p].freed == st.pipes[p].confirmed == old(st).pipes[p].confirmed
      ensures st == old(st).(pipes := old(st).pipes[p := old(st).pipes[p].(freed := st.pipes[p].freed)])
      ensures old(IdsValid()) ==> IdsValid()
    {
      var pipe := pipes[p];
      PipeFacts(st, p);
      ghost var n := st.pipes[p].confirmed - st.pipes[p].freed;
      ReachableStep(st, Free(p, n));
      pipe.rxHead := pipe.rxTail;
      st := st.(pipes := st.pipes[p := st.pipes[p].(freed := st.pipes[p].confirmed)]);
    }

    // The next queued pipe id, fetching a batch of notifications when none is queued;
    // -1 when there is none either way.
    method GetNextEnsoPipeId() returns (id: int, ghost arrived: seq<nat>)
      requires Valid() && IdsValid() && |ids| <= BATCH_SIZE
      modifies this, rxBuf, pendingTails, nextIds, Bufs()
      ensures Valid() && IdsValid() && |ids| <= BATCH_SIZE && Advanced(old(st), st, arrived)
      ensures id == -1 || id >= 0
      ensures id == -1 ==> old(ids) == ids == arrived == [] && st.posted == []
      ensures id >= 0 ==> [id] + ids == old(ids) + arrived
      ensures old(ids) != [] ==> arrived == []
    {
      arrived := [];
      EmptyExact(idsPopped, |ids|);
      if idsHead == idsTail {
        var consumed;
        consumed, arrived := GetNewTails();
        if consumed == 0 {
          return -1, arrived;
        }
      }
      id := PopQueuedId();
    }

    method PopQueuedId() returns (id: nat)
      requires Valid() && IdsValid() && ids != []
      modifies this`idsHead, this`ids, this`idsPopped
      ensures Valid() && IdsValid() && [id] + ids == old(ids)
    {
      PopId(nextIds[..], idsPopped, ids);
      id := nextIds[idsHead];
      NextSlot(idsPopped);
      idsHead := Next(idsHead);
      ids := ids[1..];
      idsPopped := idsPopped + 1;
      assert Matches();
    }

    // The next pipe that has something to receive. With every pipe returned before
    // fully received, no pipe with data is ever forgotten: null means that every pipe
    // is drained and the next notification slot is empty.
    method NextRxPipeToRecv() returns (id: int, ghost skipped: seq<nat>, ghost arrived: seq<nat>)
      requires Valid() && IdsValid() && |ids| <= BATCH_SIZE && NoneLost(st, ids)
      modifies this, rxBuf, pendingTails, nextIds, pipes`nextPipe, Bufs()
      ensures Valid() && IdsValid() && |ids| <= BATCH_SIZE && Polled(old(st), st)
      ensures id == -1 ==> st.posted == [] && forall p :: 0 <= p < |st.pipes| ==> !Busy(st, p)
      ensures id != -1 ==> 0 <= id < |pipes| == |st.pipes| && Busy(st, id) && pipes[id].nextPipe
      ensures id != -1 ==> forall p :: 0 <= p < |st.pipes| && p != id && Busy(st, p) ==> p in ids
      ensures Searched(old(st), old(ids), skipped, arrived, id, ids)
    {
      id, skipped, arrived := FindNext();
      if id >= 0 {
        MarkNext(id);
      }
    }

    // The first queued pipe that is not drained.
    method FindNext() returns (id: int, ghost skipped: seq<nat>, ghost arrived: seq<nat>)
      requires Valid() && IdsValid() && |ids| <= BATCH_SIZE && NoneLost(st, ids)
      modifies this, rxBuf, pendingTails, nextIds, Bufs()
      ensures Valid() && IdsValid() && |ids| <= BATCH_SIZE && Polled(old(st), st)
      ensures id == -1 || (0 <= id < |pipes| == |st.pipes| && Busy(st, id))
      ensures NoneLostBut(st, ids, id) && (id == -1 ==> ids == [] && st.posted == [])
      ensures Searched(old(st), old(ids), skipped, arrived, id, ids)
    {
      skipped := [];
      id, arrived := NextCandidate(-1);
      SearchStart(old(st), old(ids), arrived, id, ids);
      while id >= 0
        invariant Valid() && IdsValid() && |ids| <= BATCH_SIZE && Polled(old(st), st)
        invariant id == -1 || 0 <= id < |pipes|
        invariant NoneLostBut(st, ids, id) && (id == -1 ==> ids == [] && st.posted == [])
        invariant Searched(old(st), old(ids), skipped, arrived, id, ids)
        invariant arrived == [] ==> SameTails(old(st), st)
        invariant arrived != [] ==> id >= 0 && Busy(st, id)
        decreases if id < 0 || Busy(st, id) then 0 else 1 + |ids|
      {
        var data := HasData(id);
        if data {
          break;
        }
        id, skipped, arrived := SkipDrained(id, old(st), old(ids), skipped);
      }
    }

    // Leaves the drained pipe `was` behind, in a search that began in s0.
    method SkipDrained(was: nat, ghost s0: Rx, ghost queued: seq<nat>, ghost skipped0: seq<nat>)
        returns (id: int, ghost skipped: seq<nat>, ghost arrived: seq<nat>)
      requires Valid() && IdsValid() && |ids| <= BATCH_SIZE && Polled(s0, st) && SameTails(s0, st)
      requires was < |st.pipes| && !Busy(st, was) && NoneLostBut(st, ids, was)
      requires Searched(s0, queued, skipped0, [], was, ids)
      modifies this, rxBuf, pendingTails, nextIds, Bufs()
      ensures Valid() && IdsValid() && |ids| <= BATCH_SIZE && Polled(s0, st)
      ensures id == -1 || 0 <= id < |pipes| == |st.pipes|
      ensures NoneLostBut(st, ids, id) && (id == -1 ==> ids == [] && st.posted == [])
      ensures Searched(s0, queued, skipped, arrived, id, ids)
      ensures if arrived == [] then SameTails(s0, st) else id >= 0 && Busy(st, id)
      ensures id != -1 ==> if old(ids) == [] then Busy(st, id) else |ids| < |old(ids)|
    {
      ghost var rest := ids;
      id, arrived := NextCandidate(was);
      SearchOn(s0, queued, skipped0, was, rest, arrived, id, ids);
      skipped := skipped0 + [was];
    }

    // Whether the pipe holds something announced and not received.
    method HasData(p: nat) returns (data: bool)
      requires Matches() && p < |pipes|
      ensures p < |st.pipes| && data == Busy(st, p)
    {
      BusyIsTailsDiffer(st, p);
      data := pipes[p].rxTail != pendingTails[p];
    }

    // Leaves the drained pipe `was` behind for the next queued one.
    method NextCandidate(ghost was: int) returns (id: int, ghost arrived: seq<nat>)
      requires Valid() && IdsValid() && |ids| <= BATCH_SIZE
      requires NoneLostBut(st, ids, was) && (0 <= was < |st.pipes| ==> !Busy(st, was))
      modifies this, rxBuf, pendingTails, nextIds, Bufs()
      ensures Valid() && IdsValid() && |ids| <= BATCH_SIZE && Polled(old(st), st)
      ensures id == -1 || 0 <= id < |pipes| == |st.pipes|
      ensures NoneLostBut(st, ids, id) && (id == -1 ==> ids == [] && st.posted == [])
      ensures id != -1 ==> if old(ids) == [] then Busy(st, id) else |ids| < |old(ids)|
      ensures if id == -1 then old(ids) == ids == arrived == [] else [id] + ids == old(ids) + arrived
      ensures (old(ids) != [] ==> arrived == []) && (arrived == [] ==> SameTails(old(st), st))
    {
      ghost var s, queued := st, ids;
      id, arrived := GetNextEnsoPipeId();
      NextKeeps(s, queued, was, st, ids, id, arrived);
    }

    // An application that serves one pipe after the other, each to its end but in
    // portions of its own choice, freeing as it likes: in every round no pipe with data is
    // forgotten, and a round finds nothing to do only when there is nothing to do.
    method ServePipes(rounds: nat)
      requires Valid() && IdsValid() && |ids| <= BATCH_SIZE && NoneLost(st, ids)
      modifies this, rxBuf, pendingTails, nextIds, pipes, Bufs()
      ensures Valid() && IdsValid() && |ids| <= BATCH_SIZE && NoneLost(st, ids)
    {
      for i := 0 to rounds
        invariant Valid() && IdsValid() && |ids| <= BATCH_SIZE && NoneLost(st, ids)
      {
        ServeOne();
      }
    }

    method ServeOne()
      requires Valid() && IdsValid() && |ids| <= BATCH_SIZE && NoneLost(st, ids)
      modifies this, rxBuf, pendingTails, nextIds, pipes, Bufs()
      ensures Valid() && IdsValid() && |ids| <= BATCH_SIZE && NoneLost(st, ids)
    {
      var id;
      ghost var skipped, arrived;
      id, skipped, arrived := NextRxPipeToRecv();
      if id != -1 {
        DrainPipe(id);
      }
    }

    // Receives from the next pipe, any whole number of flits at a time, until less comes
    // than was asked for; frees any part of it after any receive; the NIC is at work all
    // the time. Everything announced has then been received, and no id was lost.
    method DrainPipe(p: nat)
      requires Valid() && IdsValid() && p < |pipes| && pipes[p].nextPipe
      modifies this`st, this`rxHead, this`idsTail, this`ids, rxBuf, pendingTails, nextIds, pipes`rxTail, pipes`rxHead, Bufs()
      ensures Valid() && IdsValid() && ids == old(ids)
      ensures Served(old(st), st, p) && !Busy(st, p)
    {
      ServedNothing(st, p);
      var more := true;
      while more
        invariant Valid() && IdsValid() && ids == old(ids) && pipes[p].nextPipe
        invariant Served(old(st), st, p) && (more || !Busy(st, p))
        decreases more, st.pipes[p].pending - st.pipes[p].confirmed
      {
        more := ReceiveSome(p, old(st));
        FreeSome(p, old(st));
        PipeFacts(st, p);
      }
    }

    method ReceiveSome(p: nat, ghost s0: Rx) returns (more: bool)
      requires Valid() && IdsValid() && p < |pipes| && pipes[p].nextPipe && Served(s0, st, p)
      modifies this`st, this`rxHead, this`idsTail, this`ids, rxBuf, pendingTails, nextIds, pipes`rxTail, Bufs()
      ensures Valid() && IdsValid() && ids == old(ids) && Served(s0, st, p) && Served(old(st), st, p)
      ensures if more then st.pipes[p].confirmed > old(st).pipes[p].confirmed else !Busy(st, p)
    {
      ghost var s := st;
      NicRun();
      ServedByNic(s0, s, st, p);
      ServedNothing(s, p);
      ServedByNic(s, s, st, p);
      var flits: int := *;
      var limit := (if flits < 1 then 1 else flits) * FLIT;
      ghost var t := st;
      var ret, data := RecvBytes(p, limit);
      ServedByRecv(s0, t, p, |data|);
      ServedByRecv(s, t, p, |data|);
      more := ret == limit;
    }

    // The application may free any part of what it received, or all of it, or nothing.
    method FreeSome(p: nat, ghost s0: Rx)
      requires Valid() && IdsValid() && p < |pipes| && Served(s0, st, p)
      modifies this`st, pipes`rxHead
      ensures Valid() && IdsValid() && ids == old(ids) && Served(s0, st, p) && |st.pipes| == |old(st).pipes|
      ensures st.pipes[p].confirmed == old(st).pipes[p].confirmed && st.pipes[p].pending == old(st).pipes[p].pending
    {
      if * {
        Clear(p);
      } else {
        var n: int := *;
        var nbBytes := if n < 0 then 0 else n;
        if Enabled(st, Free(p, AdvanceFlits(nbBytes))) {
          FreeBytes(p, nbBytes);
        }
      }
    }

    method MarkNext(id: nat)
      requires Valid() && IdsValid() && id < |pipes|
      modifies pipes`nextPipe
      ensures Valid() && IdsValid() && pipes[id].nextPipe
    {
      var pipe := pipes[id];
      pipe.nextPipe := true;
      assert Matches();
    }
  }

  // The pipe holds something announced and not received.
  ghost predicate Busy(s: Rx, p: nat)
    requires p < |s.pipes|
  {
    s.pipes[p].pending != s.pipes[p].confirmed
  }

  ghost predicate NoneLost(s: Rx, ids: seq<nat>) {
    forall p :: 0 <= p < |s.pipes| && Busy(s, p) ==> p in ids
  }

  ghost predicate SameTails(s: Rx, t: Rx) {
    |s.pipes| == |t.pipes| && forall p :: 0 <= p < |s.pipes| ==> Busy(t, p) == Busy(s, p)
  }

  // The queued ids are taken in order: drained pipes are skipped, notifications are fetched
  // only when the queue is used up, and what was not looked at stays queued.
  ghost predicate Searched(s: Rx, queued: seq<nat>, skipped: seq<nat>, arrived: seq<nat>, id: int, rest: seq<nat>) {
    && skipped <= queued && (id == -1 || arrived != [] ==> skipped == queued)
    && (forall i :: 0 <= i < |skipped| ==> skipped[i] < |s.pipes| && !Busy(s, skipped[i]))
    && (if id < 0 then arrived == rest == [] else queued + arrived == skipped + [id] + rest)
  }

  lemma SearchStart(s: Rx, queued: seq<nat>, arrived: seq<nat>, id: int, rest: seq<nat>)
    requires if id == -1 then queued == rest == arrived == [] else [id] + rest == queued + arrived
    requires id >= -1 && (queued != [] ==> arrived == [])
    ensures Searched(s, queued, [], arrived, id, rest)
  {
    if id != -1 {
      assert [] + [id] + rest == [id] + rest;
    }
  }

  lemma SearchOn(s: Rx, queued: seq<nat>, skipped: seq<nat>, was: nat, rest: seq<nat>,
                 arrived: seq<nat>, id: int, rest': seq<nat>)
    requires Searched(s, queued, skipped, [], was, rest) && was < |s.pipes| && !Busy(s, was)
    requires if id == -1 then rest == rest' == arrived == [] else id >= 0 && [id] + rest' == rest + arrived
    requires rest != [] ==> arrived == []
    ensures Searched(s, queued, skipped + [was], arrived, id, rest')
  {
    assert queued + [] == queued;
    assert queued == (skipped + [was]) + rest;
    if id != -1 {
      assert queued + arrived == (skipped + [was]) + (rest + arrived);
      assert (skipped + [was]) + ([id] + rest') == (skipped + [was]) + [id] + rest';
    }
  }

  ghost predicate NoneLostBut(s: Rx, ids: seq<nat>, id: int) {
    forall p :: 0 <= p < |s.pipes| && Busy(s, p) ==> p in ids || p == id
  }

  // From s to t only pipe p was received from; no notification was consumed.
  ghost predicate Served(s: Rx, t: Rx, p: nat) {
    && p < |s.pipes| == |t.pipes|
    && t.pipes[p].pending == s.pipes[p].pending && s.pipes[p].confirmed <= t.pipes[p].confirmed
    && forall i :: 0 <= i < |s.pipes| && i != p ==>
         t.pipes[i].pending == s.pipes[i].pending && t.pipes[i].confirmed == s.pipes[i].confirmed
  }

  lemma ServedNothing(s: Rx, p: nat)
    requires p < |s.pipes|
    ensures Served(s, s, p)
  {
  }

  lemma ServedByNic(s: Rx, t: Rx, u: Rx, p: nat)
    requires Served(s, t, p) && NicOnly(t, u)
    ensures Served(s, u, p)
  {
  }

  lemma ServedByRecv(s: Rx, t: Rx, p: nat, n: nat)
    requires Served(s, t, p) && Enabled(t, Recv(p, n))
    ensures Served(s, Apply(t, Recv(p, n)), p)
  {
  }

  lemma BusyIsTailsDiffer(s: Rx, p: nat)
    requires Reachable(s) && p < |s.pipes|
    ensures Busy(s, p) <==> Place(s.pipes[p].pending) != Place(s.pipes[p].confirmed)
  {
    PipeFacts(s, p);
    var q := s.pipes[p];
    AvailableExact(q.confirmed, q.pending - q.confirmed);
  }

  // Going on to the next id forgets no pipe, provided the one left behind is drained;
  // an id that was just fetched is of a pipe with data.
  lemma NextKeeps(s: Rx, queued: seq<nat>, was: int, t: Rx, ids: seq<nat>, id: int, arrived: seq<nat>)
    requires Reachable(s) && Reachable(t) && Advanced(s, t, arrived)
    requires NoneLostBut(s, queued, was) && (0 <= was < |s.pipes| ==> !Busy(s, was))
    requires id >= -1
    requires id == -1 ==> queued == ids == arrived == []
    requires id >= 0 ==> [id] + ids == queued + arrived
    requires forall i :: 0 <= i < |queued| ==> queued[i] < |s.pipes|
    ensures Polled(s, t) && NoneLostBut(t, ids, id)
    ensures id != -1 ==> 0 <= id < |t.pipes|
    ensures id != -1 && queued == [] ==> Busy(t, id)
  {
    var all := queued + arrived;
    if id != -1 {
      assert id == all[0];
      if queued == [] {
        assert id == arrived[0];
        PipeFacts(s, id);
      }
      forall p | 0 <= p < |t.pipes| && Busy(t, p) ensures p in ids || p == id {
        assert p in arrived || p in queued;
        assert p in all;
        assert p in [id] + ids;
      }
    }
  }

  // ConfirmBytes takes whole flits only: what Recv returned is confirmed in full exactly
  // when the limit is a multiple of the flit or does not cut the data short.
  lemma ConfirmsAllIff(n: nat, max: nat)
    ensures var ret := Min(n * FLIT, max);
            (ret / FLIT) * FLIT == ret <==> (max % FLIT == 0 || n * FLIT <= max)
  {
    if max < n * FLIT {
      assert max == FLIT * (max / FLIT) + max % FLIT;
    }
  }

  lemma WholeFlits(n: nat, max: nat)
    requires max % FLIT == 0
    ensures Min(n * FLIT, max) == Min(n, max / FLIT) * FLIT
    ensures Min(n * FLIT, max) / FLIT == Min(n, max / FLIT)
  {
    var m := max / FLIT;
    assert max == m * FLIT;
  }

  // Some notifications may have been consumed; the application's counters stand still.
  ghost predicate Polled(s: Rx, t: Rx) {
    && |s.pipes| == |t.pipes|
    && forall p :: 0 <= p < |s.pipes| ==>
         SameApp(s.pipes[p], t.pipes[p]) && s.pipes[p].pending <= t.pipes[p].pending
  }

  lemma PipeFacts(s: Rx, p: nat)
    requires Reachable(s) && p < |s.pipes|
    ensures PipeInv(s.pipes[p])
  {
    ReachableInv(s);
  }

  lemma RecvNothing(s: Rx, p: nat)
    requires Reachable(s) && p < |s.pipes|
    ensures Enabled(s, Recv(p, 0)) && Apply(s, Recv(p, 0)) == s
  {
    PipeFacts(s, p);
    var q := s.pipes[p];
    assert q.received + Slice(q.buf, q.confirmed, 0) == q.received;
    assert s.pipes[p := q] == s.pipes;
  }

  // The application's counters stand still, tails only grow, and every pipe whose
  // tail grew is among the arrived ids - and every arrived id is of such a pipe.
  ghost predicate Advanced(s: Rx, t: Rx, arrived: seq<nat>) {
    && |s.pipes| == |t.pipes|
    && (forall p :: 0 <= p < |s.pipes| ==>
          && SameApp(s.pipes[p], t.pipes[p])
          && s.pipes[p].pending <= t.pipes[p].pending
          && (s.pipes[p].pending != t.pipes[p].pending <==> p in arrived))
    && (forall i :: 0 <= i < |arrived| ==> arrived[i] < |s.pipes|)
  }

  // From s to t one notification per arrived id was consumed, those posted in s first and
  // in their order, and their tails were taken over.
  ghost predicate Consumed(s: Rx, t: Rx, arrived: seq<nat>) {
    && t.head == s.head + |arrived| && |s.pipes| == |t.pipes|
    && (|arrived| <= |s.posted| ==> s.posted[|arrived|..] <= t.posted)
    && forall i :: 0 <= i < |arrived| && i < |s.posted| ==> TakenOver(t, s.posted[i], arrived[i])
  }

  ghost predicate TakenOver(t: Rx, n: Notif, id: nat) {
    id == n.pipe < |t.pipes| && t.pipes[n.pipe].pending >= n.tail
  }

  // All notifications posted in s were consumed, up to a batch; when fewer than a batch
  // were, none is left.
  ghost predicate Fetched(s: Rx, t: Rx) {
    && s.head <= t.head <= s.head + BATCH_SIZE && |s.pipes| == |t.pipes|
    && (t.head < s.head + BATCH_SIZE ==> t.posted == [] && |s.posted| <= t.head - s.head)
    && forall i :: 0 <= i < t.head - s.head && i < |s.posted| ==> TakenOver(t, s.posted[i], s.posted[i].pipe)
  }

  lemma ConsumedIsFetched(s: Rx, t: Rx, arrived: seq<nat>)
    requires Consumed(s, t, arrived) && |arrived| <= BATCH_SIZE && (|arrived| < BATCH_SIZE ==> t.posted == [])
    ensures Fetched(s, t)
  {
    forall i | 0 <= i < |arrived| && i < |s.posted| ensures TakenOver(t, s.posted[i], s.posted[i].pipe) {
      assert TakenOver(t, s.posted[i], arrived[i]);
    }
  }

  lemma ConsumedByNic(s: Rx, t: Rx, u: Rx, arrived: seq<nat>)
    requires Consumed(s, t, arrived) && NicOnly(t, u)
    ensures Consumed(s, u, arrived)
  {
    forall i | 0 <= i < |arrived| && i < |s.posted| ensures TakenOver(u, s.posted[i], arrived[i]) {
      assert TakenOver(t, s.posted[i], arrived[i]);
    }
  }

  lemma ConsumedOne(s: Rx, t: Rx, arrived: seq<nat>)
    requires Consumed(s, t, arrived) && Reachable(t) && Enabled(t, Consume)
    ensures Consumed(s, Apply(t, Consume), arrived + [t.posted[0].pipe])
  {
    ReachableInv(t);
    var u, more := Apply(t, Consume), arrived + [t.posted[0].pipe];
    if |arrived| < |s.posted| {
      assert s.posted[|arrived|..][0] == t.posted[0];
      assert s.posted[|more|..] == s.posted[|arrived|..][1..];
    }
    forall i | 0 <= i < |more| && i < |s.posted| ensures TakenOver(u, s.posted[i], more[i]) {
      if i < |arrived| {
        assert TakenOver(t, s.posted[i], arrived[i]);
      }
    }
  }

  // A receive does not disturb what was fetched.
  lemma FetchedThenRecv(s: Rx, t: Rx, p: nat, n: nat)
    requires Fetched(s, t) && Enabled(t, Recv(p, n))
    ensures Fetched(s, Apply(t, Recv(p, n)))
  {
    var u := Apply(t, Recv(p, n));
    forall i | 0 <= i < t.head - s.head && i < |s.posted| ensures TakenOver(u, s.posted[i], s.posted[i].pipe) {
      assert TakenOver(t, s.posted[i], s.posted[i].pipe);
    }
  }

  lemma AdvancedByNic(s: Rx, t: Rx, u: Rx, arrived: seq<nat>)
    requires Advanced(s, t, arrived) && NicOnly(t, u)
    ensures Advanced(s, u, arrived)
  {
  }

  lemma AdvancedByConsume(s: Rx, t: Rx, arrived: seq<nat>)
    requires Advanced(s, t, arrived) && Reachable(t) && Enabled(t, Consume)
    ensures Advanced(s, Apply(t, Consume), arrived + [t.posted[0].pipe])
  {
    ReachableInv(t);
    assert t.posted[0].pipe in arrived + [t.posted[0].pipe];
  }

  lemma ConsumeEnabled(s: Rx)
    requires Reachable(s) && s.posted != []
    ensures Enabled(s, Consume)
  {
    ReachableInv(s);
  }

  // The NIC changes nothing on the application's side.
  ghost predicate NicOnly(s: Rx, t: Rx) {
    && |s.pipes| == |t.pipes|
    && s.head == t.head && s.posted <= t.posted
    && forall p :: 0 <= p < |s.pipes| ==>
         && SameApp(s.pipes[p], t.pipes[p])
         && t.pipes[p].pending == s.pipes[p].pending
  }

  ghost predicate SameApp(q: Pipe, q': Pipe) {
    && q'.confirmed == q.confirmed && q'.freed == q.freed && q'.received == q.received
    && q.stream <= q'.stream
  }
}
