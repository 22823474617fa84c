// A receive pipe as the code keeps it: a ring of flits with wrapped indices.
module RxPipes {
  import opened Consts
  import opened RxProtocol

  lemma PlaceMoves(i: nat, n: nat)
    ensures (Place(i) + n) % ENSO_PIPE_SIZE == Place(i + n)
  {
  }

  // The tail after `nbBytes` more confirmed bytes, in whole flits.
  function TailAt(tail: nat, nbBytes: nat): nat { (tail + nbBytes / FLIT) % ENSO_PIPE_SIZE }

  class RxEnsoPipe {
    const id: nat
    const buf: array<Flit>
    var rxHead: nat
    var rxTail: nat
    var nextPipe: bool

    constructor (id: nat)
      ensures this.id == id && rxHead == 0 && rxTail == 0 && !nextPipe
      ensures fresh(buf) && buf.Length == ENSO_PIPE_SIZE
    {
      this.id, rxHead, rxTail, nextPipe := id, 0, 0, false;
      buf := new Flit[ENSO_PIPE_SIZE](_ => []);
    }

    method ConfirmBytes(nbBytes: nat)
      modifies this`rxTail
      ensures rxTail == TailAt(old(rxTail), nbBytes)
    {
      rxTail := (rxTail + nbBytes / FLIT) % ENSO_PIPE_SIZE;
    }

    ghost predicate Refines(q: Pipe)
      reads this, buf
    {
      buf[..] == q.buf && rxHead == Place(q.freed) && rxTail == Place(q.confirmed)
    }
  }
}
