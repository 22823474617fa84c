// Pipe allocation in the kernel module: a device-wide bitmap, a bitmap per open handle,
// and counts of fallback pipes. Fallback pipes come from the front, the others from the
// back. Every ioctl is atomic.
module Allocator {
  import opened Consts

  datatype Handle = Handle(pipes: set<nat>, fallbacks: nat)

  datatype Alloc = Alloc(pipes: set<nat>, fallbacks: nat, handles: seq<Handle>)

  datatype Op =
    | Open
    | AllocFallback(h: nat, id: nat)
    | AllocRegular(h: nat, id: nat)
    | Free(h: nat, id: nat)
    | Release(h: nat)

  ghost predicate IsLowestFree(pipes: set<nat>, id: nat) {
    id < MAX_NB_FLOWS && id !in pipes && forall k: nat :: k < id ==> k in pipes
  }

  ghost predicate IsHighestFree(pipes: set<nat>, id: nat) {
    id < MAX_NB_FLOWS && id !in pipes && forall k: nat :: id < k < MAX_NB_FLOWS ==> k in pipes
  }

  ghost predicate NoneFree(pipes: set<nat>) {
    forall k: nat :: k < MAX_NB_FLOWS ==> k in pipes
  }

  ghost predicate Enabled(s: Alloc, op: Op) {
    match op
    case Open => true
    case AllocFallback(h, id) => h < |s.handles| && IsLowestFree(s.pipes, id) && id == s.fallbacks
    case AllocRegular(h, id) => h < |s.handles| && IsHighestFree(s.pipes, id)
    case Free(h, id) => h < |s.handles| && id in s.handles[h].pipes
    case Release(h) => h < |s.handles|
  }

  function Take(h: Handle, id: nat): Handle { h.(pipes := h.pipes + {id}) }

  ghost function Apply(s: Alloc, op: Op): Alloc
    requires Enabled(s, op)
  {
    match op
    case Open => s.(handles := s.handles + [Handle({}, 0)])
    case AllocFallback(h, id) =>
      var c := s.handles[h];
      Alloc(s.pipes + {id}, (s.fallbacks + 1) % U32,
            s.handles[h := Handle(c.pipes + {id}, (c.fallbacks + 1) % U32)])
    case AllocRegular(h, id) =>
      s.(pipes := s.pipes + {id}, handles := s.handles[h := Take(s.handles[h], id)])
    case Free(h, id) =>
      var c := s.handles[h];
      if id < s.fallbacks
      then Alloc(s.pipes - {id}, (s.fallbacks - 1) % U32,
                 s.handles[h := Handle(c.pipes - {id}, (c.fallbacks - 1) % U32)])
      else s.(pipes := s.pipes - {id}, handles := s.handles[h := c.(pipes := c.pipes - {id})])
    case Release(h) =>
      Alloc(s.pipes - s.handles[h].pipes, (s.fallbacks - s.handles[h].fallbacks) % U32,
            s.handles[..h] + s.handles[h + 1..])
  }

  function SumFallbacks(hs: seq<Handle>): nat {
    if hs == [] then 0 else SumFallbacks(hs[..|hs| - 1]) + hs[|hs| - 1].fallbacks
  }

  ghost predicate Owned(hs: seq<Handle>, id: nat) {
    exists h :: 0 <= h < |hs| && id in hs[h].pipes
  }

  ghost predicate Disjoint(hs: seq<Handle>) {
    forall g, h :: 0 <= g < h < |hs| ==> hs[g].pipes !! hs[h].pipes
  }

  // The device bitmap is the disjoint union of the handles' bitmaps, and the device
  // counts as many fallback pipes as the handles together, in 32 bits.
  ghost predicate Inv(s: Alloc) {
    && (forall id :: id in s.pipes <==> Owned(s.handles, id))
    && Disjoint(s.handles)
    && s.fallbacks == SumFallbacks(s.handles) % U32
    && (forall id :: id in s.pipes ==> id < MAX_NB_FLOWS)
  }

  lemma {:induction false} SumAppend(a: seq<Handle>, b: seq<Handle>)
    ensures SumFallbacks(a + b) == SumFallbacks(a) + SumFallbacks(b)
    decreases |b|
  {
    if b == [] {
      assert a + b == a;
    } else {
      SumAppend(a, b[..|b| - 1]);
      assert (a + b)[..|a + b| - 1] == a + b[..|b| - 1];
    }
  }

  lemma SumSplit(hs: seq<Handle>, h: nat)
    requires h < |hs|
    ensures SumFallbacks(hs) == SumFallbacks(hs[..h]) + hs[h].fallbacks + SumFallbacks(hs[h + 1..])
    ensures SumFallbacks(hs[..h] + hs[h + 1..]) == SumFallbacks(hs[..h]) + SumFallbacks(hs[h + 1..])
  {
    assert hs == hs[..h] + [hs[h]] + hs[h + 1..];
    SumAppend(hs[..h] + [hs[h]], hs[h + 1..]);
    SumAppend(hs[..h], [hs[h]]);
    assert [hs[h]][..0] == [];
    SumAppend(hs[..h], hs[h + 1..]);
  }

  lemma SumUpdate(hs: seq<Handle>, h: nat, c: Handle)
    requires h < |hs|
    ensures SumFallbacks(hs[h := c]) == SumFallbacks(hs) - hs[h].fallbacks + c.fallbacks
  {
    var hs' := hs[h := c];
    SumSplit(hs, h);
    SumSplit(hs', h);
    assert hs'[..h] == hs[..h] && hs'[h + 1..] == hs[h + 1..];
  }

  // Replacing the bitmap of one handle by one that gained or lost a pipe of its own.
  lemma OwnedAfterUpdate(s: Alloc, h: nat, c: Handle, pipes: set<nat>, id: nat)
    requires Inv(s) && h < |s.handles|
    requires (id !in s.pipes && c.pipes == s.handles[h].pipes + {id} && pipes == s.pipes + {id})
          || (id in s.handles[h].pipes && c.pipes == s.handles[h].pipes - {id} && pipes == s.pipes - {id})
    ensures Disjoint(s.handles[h := c])
    ensures forall x :: x in pipes <==> Owned(s.handles[h := c], x)
  {
    var hs' := s.handles[h := c];
    assert hs'[h] == c;
    forall x ensures x in pipes <==> Owned(hs', x) {
      if x in pipes {
        if x in c.pipes {
          assert x in hs'[h].pipes;
        } else {
          assert Owned(s.handles, x);
          var g :| 0 <= g < |s.handles| && x in s.handles[g].pipes;
          assert x in hs'[g].pipes;
        }
      }
      if Owned(hs', x) {
        var g :| 0 <= g < |hs'| && x in hs'[g].pipes;
        if g != h {
          assert x in s.handles[g].pipes;
        } else if x != id {
          assert x in s.handles[h].pipes;
        }
      }
    }
    forall i, j | 0 <= i < j < |hs'| ensures hs'[i].pipes !! hs'[j].pipes {
      assert Owned(s.handles, id) <==> id in s.pipes;
      if id !in s.pipes {
        assert id !in s.handles[i].pipes && id !in s.handles[j].pipes;
      }
    }
  }

  lemma ReleaseOwned(s: Alloc, h: nat)
    requires Inv(s) && h < |s.handles|
    ensures Disjoint(s.handles[..h] + s.handles[h + 1..])
    ensures forall x :: x in s.pipes - s.handles[h].pipes <==> Owned(s.handles[..h] + s.handles[h + 1..], x)
  {
    var hs' := s.handles[..h] + s.handles[h + 1..];
    forall x ensures x in s.pipes - s.handles[h].pipes <==> Owned(hs', x) {
      if x in s.pipes - s.handles[h].pipes {
        assert Owned(s.handles, x);
        var g :| 0 <= g < |s.handles| && x in s.handles[g].pipes;
        assert x in hs'[if g < h then g else g - 1].pipes;
      }
      if Owned(hs', x) {
        var g :| 0 <= g < |hs'| && x in hs'[g].pipes;
        var g0 := if g < h then g else g + 1;
        assert x in s.handles[g0].pipes;
      }
    }
  }

  // Counting up or down in 32 bits on one handle and on the device alike.
  lemma CountBoth(total: nat, sum: nat, c: nat, d: int)
    requires total == sum % U32 && c <= sum
    ensures (total + d) % U32 == (sum - c + (c + d) % U32) % U32
  {
    var q := (c + d) / U32;
    assert (c + d) % U32 == c + d - U32 * q;
    var p := sum / U32;
    assert total == sum - U32 * p;
  }

  lemma CountRelease(total: nat, sum: nat, c: nat)
    requires total == sum % U32 && c <= sum
    ensures (total - c) % U32 == (sum - c) % U32
  {
    var p := sum / U32;
    assert total == sum - U32 * p;
  }

  // One handle gains or loses a pipe, and its count moves with the device's.
  lemma UpdateKeepsInv(s: Alloc, h: nat, c: Handle, t: Alloc, id: nat)
    requires Inv(s) && h < |s.handles|
    requires t.handles == s.handles[h := c] && id < MAX_NB_FLOWS
    requires (id !in s.pipes && c.pipes == s.handles[h].pipes + {id} && t.pipes == s.pipes + {id})
          || (id in s.handles[h].pipes && c.pipes == s.handles[h].pipes - {id} && t.pipes == s.pipes - {id})
    requires t.fallbacks == (SumFallbacks(s.handles) - s.handles[h].fallbacks + c.fallbacks) % U32
    ensures Inv(t)
  {
    OwnedAfterUpdate(s, h, c, t.pipes, id);
    SumUpdate(s.handles, h, c);
  }

  lemma StepKeepsInv(s: Alloc, op: Op)
    requires Inv(s) && Enabled(s, op)
    ensures Inv(Apply(s, op))
  {
    var t := Apply(s, op);
    match op
    case Open => OpenKeeps(s);
    case AllocFallback(h, id) =>
      SumSplit(s.handles, h);
      CountBoth(s.fallbacks, SumFallbacks(s.handles), s.handles[h].fallbacks, 1);
      UpdateKeepsInv(s, h, t.handles[h], t, id);
    case AllocRegular(h, id) => UpdateKeepsInv(s, h, t.handles[h], t, id);
    case Free(h, id) => FreeKeeps(s, h, id);
    case Release(h) => ReleaseKeeps(s, h);
  }

  lemma FreeKeeps(s: Alloc, h: nat, id: nat)
    requires Inv(s) && Enabled(s, Free(h, id))
    ensures Inv(Apply(s, Free(h, id)))
  {
    var t := Apply(s, Free(h, id));
    assert Owned(s.handles, id);
    SumSplit(s.handles, h);
    CountBoth(s.fallbacks, SumFallbacks(s.handles), s.handles[h].fallbacks, -1);
    UpdateKeepsInv(s, h, t.handles[h], t, id);
  }

  lemma ReleaseKeeps(s: Alloc, h: nat)
    requires Inv(s) && h < |s.handles|
    ensures Inv(Apply(s, Release(h)))
  {
    ReleaseOwned(s, h);
    SumSplit(s.handles, h);
    var c := s.handles[h].fallbacks;
    CountRelease(s.fallbacks, SumFallbacks(s.handles), c);
    assert SumFallbacks(s.handles[..h] + s.handles[h + 1..]) == SumFallbacks(s.handles) - c;
  }

  lemma OpenKeeps(s: Alloc)
    requires Inv(s)
    ensures Inv(Apply(s, Open))
  {
    SumAppend(s.handles, [Handle({}, 0)]);
    assert [Handle({}, 0)][..0] == [];
    OpenOwned(s);
  }

  lemma OpenOwned(s: Alloc)
    requires Inv(s)
    ensures Disjoint(s.handles + [Handle({}, 0)])
    ensures forall x :: x in s.pipes <==> Owned(s.handles + [Handle({}, 0)], x)
  {
    var hs' := s.handles + [Handle({}, 0)];
    forall x ensures x in s.pipes <==> Owned(hs', x) {
      if x in s.pipes {
        assert Owned(s.handles, x);
        var g :| 0 <= g < |s.handles| && x in s.handles[g].pipes;
        assert x in hs'[g].pipes;
      }
      if Owned(hs', x) {
        var g :| 0 <= g < |hs'| && x in hs'[g].pipes;
        assert x in s.handles[g].pipes;
      }
    }
  }

  ghost predicate IsRun(states: seq<Alloc>, ops: seq<Op>) {
    && |states| == |ops| + 1
    && states[0] == Alloc({}, 0, [])
    && forall i {:trigger ops[i]} :: 0 <= i < |ops| ==>
         Enabled(states[i], ops[i]) && states[i + 1] == Apply(states[i], ops[i])
  }

  // Ownership conservation over every sequence of opens, allocations, frees and
  // releases on one device.
  lemma {:induction false} OwnershipConserved(states: seq<Alloc>, ops: seq<Op>, k: nat)
    requires IsRun(states, ops) && k < |states|
    ensures Inv(states[k])
  {
    if k > 0 {
      OwnershipConserved(states, ops, k - 1);
      StepKeepsInv(states[k - 1], ops[k - 1]);
    }
  }
}
