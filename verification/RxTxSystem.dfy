// Receive and transmit together: the receive protocol, the transmit protocol, and RX/TX
// pipes whose TX buffer is their RX ring. The steps of both protocols, of the NIC, and of
// the RX/TX pipes interleave in any order.
module RxTxSystem {
  import opened Consts
  import opened Segmentation
  import opened Flits
  import R = RxProtocol
  import T = TxProtocol
  import Z = ZeroCopy
  import TxSafety
  import opened TxTheorems

  // An RX/TX pipe: which pipes it is made of, the capacity it remembers, and the bytes of
  // a send whose capacity update is still to come.
  datatype Link = Link(rx: nat, tx: nat, lastCapacity: nat, sending: nat)

  datatype Sys = Sys(rx: R.Rx, tx: T.Tx, links: seq<Link>)

  datatype Step =
    | Receive(r: R.Step)
    | Transmit(t: T.Step)
    | GiveBack(j: nat)
    | SendEnds(j: nat)

  ghost predicate LinksOk(s: Sys) {
    && (forall j :: 0 <= j < |s.links| ==> s.links[j].rx < |s.rx.pipes| && s.links[j].tx < |s.tx.pipes|)
    && (forall i, j :: 0 <= i < j < |s.links| ==>
          s.links[i].rx != s.links[j].rx && s.links[i].tx != s.links[j].tx)
  }

  // Only confirmed bytes are sent from an RX/TX pipe, one send at a time; its RX space is
  // given back by nothing but its own completions.
  ghost predicate MaySend(s: Sys, p: nat, len: nat)
    requires LinksOk(s) && p < |s.tx.pipes|
  {
    forall j :: 0 <= j < |s.links| && s.links[j].tx == p ==>
      s.links[j].sending == 0 && s.tx.pipes[p].sent + len <= FLIT * s.rx.pipes[s.links[j].rx].confirmed
  }

  ghost predicate Linked(s: Sys, p: nat) {
    exists j :: 0 <= j < |s.links| && s.links[j].rx == p
  }

  ghost predicate Enabled(s: Sys, step: Step) {
    LinksOk(s) &&
    match step
    case Receive(r) => R.Enabled(s.rx, r) && (r.Free? ==> !Linked(s, r.p))
    case Transmit(t) => T.Enabled(s.tx, t) && (t.Begin? ==> MaySend(s, t.pipe, t.len))
    case GiveBack(j) => j < |s.links|
    case SendEnds(j) => j < |s.links| && s.links[j].sending > 0 && s.tx.phase.Idle?
  }

  function Begun(links: seq<Link>, p: nat, len: nat): (r: seq<Link>)
    ensures |r| == |links|
  {
    seq(|links|, j requires 0 <= j < |links| =>
      if links[j].tx == p then links[j].(sending := len) else links[j])
  }

  function TxCapacity(s: Sys, l: Link): nat
    requires l.tx < |s.tx.pipes|
  {
    T.Capacity(s.tx.pipes[l.tx])
  }

  ghost function Apply(s: Sys, step: Step): Sys
    requires Enabled(s, step)
  {
    match step
    case Receive(r) => s.(rx := R.Apply(s.rx, r))
    case Transmit(t) =>
      Sys(s.rx, T.Apply(s.tx, t), if t.Begin? then Begun(s.links, t.pipe, t.len) else s.links)
    case GiveBack(j) =>
      var l := s.links[j];
      if TxCapacity(s, l) > l.lastCapacity then FreeGain(s, j, AdvanceFlits(TxCapacity(s, l) - l.lastCapacity)) else s
    case SendEnds(j) =>
      var l := s.links[j];
      s.(links := s.links[j := l.(lastCapacity := (l.lastCapacity - l.sending) % U32, sending := 0)])
  }

  // Gives n flits of pipe j back, unchecked, as the code does.
  ghost function FreeGain(s: Sys, j: nat, n: nat): Sys
    requires LinksOk(s) && j < |s.links|
  {
    var l := s.links[j];
    var q := s.rx.pipes[l.rx];
    Sys(s.rx.(pipes := s.rx.pipes[l.rx := q.(freed := q.freed + n)]), s.tx,
        s.links[j := l.(lastCapacity := TxCapacity(s, l))])
  }

  // The bytes of one RX/TX pipe.
  ghost function Proj(s: Sys, j: nat): Z.Zc
    requires LinksOk(s) && j < |s.links|
  {
    var l := s.links[j];
    var q, p := s.rx.pipes[l.rx], s.tx.pipes[l.tx];
    Z.Zc(FLIT * |q.stream|, FLIT * q.confirmed, p.sent, p.completed, FLIT * q.freed, l.lastCapacity, l.sending)
  }

  ghost predicate LinkInv(s: Sys, j: nat)
    requires LinksOk(s) && j < |s.links|
  {
    Z.Inv(Proj(s, j)) && s.links[j].sending % FLIT == 0
  }

  ghost predicate Inv(s: Sys) {
    && R.Reachable(s.rx) && T.Reachable(s.tx) && LinksOk(s)
    && forall j :: 0 <= j < |s.links| ==> LinkInv(s, j)
  }

  // Receive steps.
  lemma ReceiveProjects(s: Sys, r: R.Step, j: nat)
    requires Inv(s) && Enabled(s, Receive(r)) && j < |s.links|
    ensures LinksOk(Apply(s, Receive(r))) && LinkInv(Apply(s, Receive(r)), j)
  {
    var t := Apply(s, Receive(r));
    var z, l := Proj(s, j), s.links[j];
    assert LinkInv(s, j);
    R.ReachableInv(s.rx);
    assert R.PipeInv(s.rx.pipes[l.rx]);
    if r.NicWrite? && r.p == l.rx {
      assert Proj(t, j) == Z.Apply(z, Z.NicWrites(FLIT));
      Z.StepKeepsInv(z, Z.NicWrites(FLIT));
    } else if r.Recv? && r.p == l.rx {
      assert Proj(t, j) == Z.Apply(z, Z.Confirm(FLIT * r.n));
      Z.StepKeepsInv(z, Z.Confirm(FLIT * r.n));
    } else {
      assert Proj(t, j) == z;
    }
  }

  // Transmit steps.
  lemma TransmitProjects(s: Sys, step: T.Step, j: nat)
    requires Inv(s) && Enabled(s, Transmit(step)) && j < |s.links|
    ensures LinksOk(Apply(s, Transmit(step))) && LinkInv(Apply(s, Transmit(step)), j)
  {
    var t := Apply(s, Transmit(step));
    var z, l := Proj(s, j), s.links[j];
    assert LinkInv(s, j);
    SamePipes(s, step);
    Z.TransmitStepProjects(s.tx, step, l.tx);
    if step.Begin? && step.pipe == l.tx {
      assert Proj(t, j) == Z.Apply(z, Z.SendBegins(step.len));
      Z.StepKeepsInv(z, Z.SendBegins(step.len));
    } else {
      var gain := t.tx.pipes[l.tx].completed - s.tx.pipes[l.tx].completed;
      assert Proj(t, j) == Z.Apply(z, Z.Completes(gain));
      Z.StepKeepsInv(z, Z.Completes(gain));
    }
  }

  lemma SamePipes(s: Sys, step: T.Step)
    requires Inv(s) && Enabled(s, Transmit(step))
    ensures |T.Apply(s.tx, step).pipes| == |s.tx.pipes| && LinksOk(Apply(s, Transmit(step)))
  {
    if step.Process? {
      TxSafety.ReportAllFrame(s.tx.(ring := T.Reclaim(s.tx.ring, step.n)));
    }
  }

  // What a gain in capacity gives back is a whole number of flits that were confirmed.
  lemma GainIsWhole(s: Sys, j: nat)
    requires Inv(s) && j < |s.links| && TxCapacity(s, s.links[j]) > s.links[j].lastCapacity
    ensures var l := s.links[j];
            var q, gain := s.rx.pipes[l.rx], TxCapacity(s, l) - l.lastCapacity;
            && gain == FLIT * AdvanceFlits(gain)
            && q.freed + AdvanceFlits(gain) <= q.confirmed
  {
    var l := s.links[j];
    var gain, p := TxCapacity(s, l) - l.lastCapacity, s.tx.pipes[l.tx];
    assert LinkInv(s, j);
    TxSafety.CapacityValue(T.Pipe(0, p.sent, p.completed));
    PipesAligned(s.tx, l.tx);
    assert gain == p.completed - FLIT * s.rx.pipes[l.rx].freed - l.sending;
    WholeDifference(p.completed, s.rx.pipes[l.rx].freed, l.sending);
    AdvanceWhole(gain);
  }

  lemma WholeDifference(a: nat, k: nat, b: nat)
    requires a % FLIT == 0 && b % FLIT == 0
    ensures (a - FLIT * k - b) % FLIT == 0
  {
  }

  lemma GiveBackProjects(s: Sys, k: nat, j: nat)
    requires Inv(s) && Enabled(s, GiveBack(k)) && j < |s.links|
    ensures LinksOk(Apply(s, GiveBack(k))) && LinkInv(Apply(s, GiveBack(k)), j)
  {
    var t, l := Apply(s, GiveBack(k)), s.links[k];
    assert LinkInv(s, j);
    if TxCapacity(s, l) > l.lastCapacity {
      GainIsWhole(s, k);
      if j == k {
        assert Z.TxCapacity(Proj(s, j)) == TxCapacity(s, l);
        assert Proj(t, j) == Z.Apply(Proj(s, j), Z.ProcessCompletions);
        Z.StepKeepsInv(Proj(s, j), Z.ProcessCompletions);
      } else {
        assert s.links[j].rx != l.rx;
        assert Proj(t, j) == Proj(s, j);
      }
    }
  }

  lemma GiveBackReachable(s: Sys, k: nat)
    requires Inv(s) && Enabled(s, GiveBack(k))
    ensures R.Reachable(Apply(s, GiveBack(k)).rx)
  {
    var l := s.links[k];
    if TxCapacity(s, l) > l.lastCapacity {
      GainIsWhole(s, k);
      R.ReachableStep(s.rx, R.Free(l.rx, AdvanceFlits(TxCapacity(s, l) - l.lastCapacity)));
    }
  }

  lemma SendEndsProjects(s: Sys, k: nat, j: nat)
    requires Inv(s) && Enabled(s, SendEnds(k)) && j < |s.links|
    ensures LinkInv(Apply(s, SendEnds(k)), j)
  {
    var t := Apply(s, SendEnds(k));
    assert LinkInv(s, j);
    if j == k {
      assert Proj(t, j) == Z.Apply(Proj(s, j), Z.SendEnds);
      Z.StepKeepsInv(Proj(s, j), Z.SendEnds);
    } else {
      assert Proj(t, j) == Proj(s, j);
    }
  }

  lemma ReceiveKeepsInv(s: Sys, r: R.Step)
    requires Inv(s) && Enabled(s, Receive(r))
    ensures Inv(Apply(s, Receive(r)))
  {
    R.ReachableStep(s.rx, r);
    var t := Apply(s, Receive(r));
    assert |t.rx.pipes| == |s.rx.pipes|;
    forall j: nat | j < |s.links| ensures LinkInv(t, j) {
      ReceiveProjects(s, r, j);
    }
  }

  lemma TransmitKeepsInv(s: Sys, step: T.Step)
    requires Inv(s) && Enabled(s, Transmit(step))
    ensures Inv(Apply(s, Transmit(step)))
  {
    T.ReachableStep(s.tx, step);
    SamePipes(s, step);
    forall j: nat | j < |s.links| ensures LinkInv(Apply(s, Transmit(step)), j) {
      TransmitProjects(s, step, j);
    }
  }

  // Every step, of either protocol or of an RX/TX pipe, keeps both protocols going and
  // every RX/TX pipe within the zero-copy discipline.
  lemma StepKeepsInv(s: Sys, step: Step)
    requires Inv(s) && Enabled(s, step)
    ensures Inv(Apply(s, step))
  {
    match step
    case Receive(r) => ReceiveKeepsInv(s, r);
    case Transmit(t) => TransmitKeepsInv(s, t);
    case GiveBack(k) =>
      GiveBackReachable(s, k);
      forall j: nat | j < |s.links| ensures LinksOk(Apply(s, step)) && LinkInv(Apply(s, step), j) {
        GiveBackProjects(s, k, j);
      }
    case SendEnds(k) =>
      forall j: nat | j < |s.links| ensures LinkInv(Apply(s, step), j) {
        SendEndsProjects(s, k, j);
      }
  }

  ghost predicate IsInitial(s: Sys) {
    && R.IsInitial(s.rx) && T.IsInitial(s.tx) && LinksOk(s)
    && forall j :: 0 <= j < |s.links| ==> s.links[j].lastCapacity == BUF_PAGE_SIZE - 1 && s.links[j].sending == 0
  }

  ghost predicate IsRun(states: seq<Sys>, steps: seq<Step>) {
    && |states| == |steps| + 1
    && IsInitial(states[0])
    && forall i {:trigger steps[i]} :: 0 <= i < |steps| ==>
         Enabled(states[i], steps[i]) && states[i + 1] == Apply(states[i], steps[i])
  }

  lemma InitialInv(s: Sys)
    requires IsInitial(s)
    ensures Inv(s)
  {
    R.ReachableInit(s.rx);
    var pages, head :| T.Distinct(pages) && s.tx == T.Init(pages, head);
    T.ReachableInit(pages, head);
    TxSafety.CapacityValue(T.Pipe(0, 0, 0));
    forall j | 0 <= j < |s.links| ensures LinkInv(s, j) {
      assert Proj(s, j) == Z.Start;
    }
  }

  lemma {:induction false} RunKeepsInv(states: seq<Sys>, steps: seq<Step>, k: nat)
    requires IsRun(states, steps) && k <= |steps|
    ensures Inv(states[k])
  {
    if k == 0 {
      InitialInv(states[0]);
    } else {
      RunKeepsInv(states, steps, k - 1);
      StepKeepsInv(states[k - 1], steps[k - 1]);
    }
  }

  // Where byte b of flit g of a ring lies in its page.
  lemma FlitByte(g: nat, b: nat)
    requires b < FLIT
    ensures R.Place(g) * FLIT + b == (FLIT * g + b) % BUF_PAGE_SIZE
  {
    var q := g / ENSO_PIPE_SIZE;
    assert g == ENSO_PIPE_SIZE * q + R.Place(g);
    assert FLIT * g + b == BUF_PAGE_SIZE * q + (R.Place(g) * FLIT + b);
  }

  // A byte of an outstanding request is not one the NIC may write.
  lemma OutstandingByteIsNotWritable(s: Sys, j: nat, r: nat, i: nat, g: nat, b: nat)
    requires Inv(s) && T.Inv(s.tx) && j < |s.links| && b < FLIT
    requires |s.tx.reported| <= r < |s.tx.sent| && i < s.tx.sent[r].len
    requires MayWrite(s.rx.pipes[s.links[j].rx], g)
    ensures CircularByte(s.tx.sent[r].addr, i) != FlitAddr(s.tx.pipes[s.links[j].tx], g) + b
  {
    var l, req := s.links[j], s.tx.sent[r];
    assert LinkInv(s, j);
    OutstandingSpan(s.tx, r);
    var start := T.Bytes(s.tx.sent[..r], req.pipe);
    RequestByte(s.tx.pipes[req.pipe].page, start, i);
    FlitByte(g, b);
    if req.pipe == l.tx {
      DifferentInPage(start + i, FLIT * g + b);
    } else {
      SamePageOnly(s.tx.pipes[req.pipe].page, s.tx.pipes[l.tx].page,
                   (start + i) % BUF_PAGE_SIZE, (FLIT * g + b) % BUF_PAGE_SIZE);
    }
  }

  // Flit g of the stream is one the NIC may write before more space is given back.
  predicate MayWrite(q: R.Pipe, g: nat) { |q.stream| <= g < q.freed + ENSO_PIPE_SIZE - 1 }

  // Where flit g goes, in the page that an RX/TX pipe receives into and sends from.
  function FlitAddr(p: T.Pipe, g: nat): nat { p.page * BUF_PAGE_SIZE + R.Place(g) * FLIT }

  // In every run, with any number of pipes: no byte that an unreclaimed descriptor tells
  // the NIC to fetch - published or not, of any pipe - lies in any flit of an RX/TX pipe
  // that the NIC may write before more space is given back.
  lemma NicNeverOverwritesTransmission(states: seq<Sys>, steps: seq<Step>, k: nat, j: nat, d: nat, x: nat, g: nat, b: nat)
    requires IsRun(states, steps) && k <= |steps|
    requires j < |states[k].links| && LinksOk(states[k])
    requires d < |states[k].tx.ring.window| && x in DescBytes(states[k].tx.ring.window[d])
    requires MayWrite(states[k].rx.pipes[states[k].links[j].rx], g) && b < FLIT
    ensures x != FlitAddr(states[k].tx.pipes[states[k].links[j].tx], g) + b
  {
    RunKeepsInv(states, steps, k);
    var s := states[k];
    TxSafety.ReachableInv(s.tx);
    var r, m := UnreclaimedIsUnreported(s.tx, d);
    var i := SegmentByte(s.tx.sent[r].addr, s.tx.sent[r].len, m, x);
    OutstandingByteIsNotWritable(s, j, r, i, g, b);
  }
}
