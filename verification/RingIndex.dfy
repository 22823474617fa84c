// Indices of a notification ring: unbounded counts and the slots they fall on.
module RingIndex {
  import opened Consts

  const N: nat := NOTIFICATION_BUF_SIZE

  function Slot(i: nat): nat { i % N }

  // (tx_head - tx_tail - 1) % size on 32-bit operands.
  function FreeSlots(head: nat, tail: nat): nat { ((head - tail - 1) % U32) % N }

  // The 32-bit difference of two ring indices is the number of slots left.
  lemma FreeSlotsExact(head: nat, used: nat)
    requires used < N
    ensures FreeSlots(Slot(head), Slot(head + used)) == N - 1 - used
  {
    var h, t := Slot(head), Slot(head + used);
    assert t == if h + used < N then h + used else h + used - N;
    assert (h - t - 1) % U32 == if t < h then h - t - 1 else U32 + h - t - 1;
  }

  lemma EmptyExact(head: nat, used: nat)
    requires used < N
    ensures (Slot(head) == Slot(head + used)) <==> used == 0
  {
  }

  function Next(slot: nat): nat { (slot + 1) % N }

  function Distance(head: nat, tail: nat): nat { (tail - head) % N }

  lemma NextSlot(i: nat)
    ensures Next(Slot(i)) == Slot(i + 1)
  {
  }

  lemma DistanceExact(head: nat, used: nat)
    requires used < N
    ensures Distance(Slot(head), Slot(head + used)) == used
  {
  }

  lemma SlotsDiffer(head: nat, i: nat, j: nat)
    requires i < j < N
    ensures Slot(head + i) != Slot(head + j)
  {
  }

  // Which element of the window slot j holds.
  function Pos(head: nat, j: nat): nat { (j - head) % N }

  lemma PosOfSlot(head: nat, i: nat)
    requires i < N
    ensures Pos(head, Slot(head + i)) == i
  {
  }

  lemma PosAfterHead(head: nat, j: nat)
    requires j < N
    ensures j == Slot(head) <==> Pos(head, j) == 0
    ensures j != Slot(head) ==> Pos(head + 1, j) == Pos(head, j) - 1
    ensures j == Slot(head) ==> Pos(head + 1, j) == N - 1
  {
  }
}
