// Steering of unmatched packets: the NIC picks fallback pipe hash & mask. That pipe is
// live as long as one handle owns the fallback pipes and frees them last-in first-out.
module Fallback {
  import opened Consts
  import opened Allocator
  import opened BitOps

  // The allocator with the ids handed out as fallback pipes and not freed since.
  datatype State = State(alloc: Alloc, ids: set<nat>)

  // The ids 0 .. n - 1.
  function Front(n: nat): (r: set<nat>)
    ensures forall x: nat :: x in r <==> x < n
  {
    if n == 0 then {} else Front(n - 1) + {n - 1}
  }

  ghost function Apply(s: State, op: Op): State
    requires Enabled(s.alloc, op)
  {
    State(Allocator.Apply(s.alloc, op),
          match op
          case Open => s.ids
          case AllocFallback(h, id) => s.ids + {id}
          case AllocRegular(h, id) => s.ids
          case Free(h, id) => s.ids - {id}
          case Release(h) => s.ids - s.alloc.handles[h].pipes)
  }

  // One handle owns the fallback pipes and frees the last one first.
  ghost predicate Disciplined(s: Alloc, op: Op) {
    match op
    case AllocFallback(h, id) =>
      forall g :: 0 <= g < |s.handles| && g != h ==> s.handles[g].fallbacks == 0
    case Free(h, id) => id < s.fallbacks ==> id == s.fallbacks - 1
    case _ => true
  }

  ghost predicate Owner(s: Alloc, h: nat) {
    h < |s.handles| && s.handles[h].fallbacks == s.fallbacks && Front(s.fallbacks) <= s.handles[h].pipes
  }

  ghost predicate FrontInv(s: State) {
    && Inv(s.alloc)
    && s.alloc.fallbacks <= MAX_NB_FLOWS
    && s.ids == Front(s.alloc.fallbacks)
    && (forall h :: 0 <= h < |s.alloc.handles| && s.alloc.handles[h].fallbacks > 0 ==> Owner(s.alloc, h))
    && (s.alloc.fallbacks > 0 ==> exists h: nat :: Owner(s.alloc, h))
  }

  lemma FallbackStep(s: State, h: nat, id: nat)
    requires FrontInv(s) && Enabled(s.alloc, AllocFallback(h, id)) && Disciplined(s.alloc, AllocFallback(h, id))
    ensures FrontInv(Apply(s, AllocFallback(h, id)))
  {
    var t := Apply(s, AllocFallback(h, id));
    StepKeepsInv(s.alloc, AllocFallback(h, id));
    assert Front(id + 1) == Front(id) + {id};
    if s.alloc.fallbacks > 0 {
      var g: nat :| Owner(s.alloc, g);
      assert g == h;
    }
    assert s.alloc.handles[h].fallbacks == s.alloc.fallbacks by {
      if s.alloc.handles[h].fallbacks > 0 {
        assert Owner(s.alloc, h);
      }
    }
    assert Owner(t.alloc, h);
  }

  lemma OnlyOwner(s: State, h: nat, id: nat)
    requires FrontInv(s) && h < |s.alloc.handles| && id in s.alloc.handles[h].pipes && id < s.alloc.fallbacks
    ensures Owner(s.alloc, h)
  {
    var g: nat :| Owner(s.alloc, g);
    assert id in s.alloc.handles[g].pipes;
    OneOwner(s.alloc, g, h, id);
  }

  lemma OneOwner(s: Alloc, g: nat, h: nat, id: nat)
    requires Inv(s) && g < |s.handles| && h < |s.handles|
    requires id in s.handles[g].pipes && id in s.handles[h].pipes
    ensures g == h
  {
  }

  lemma RegularKeepsOwners(s: Alloc, t: Alloc, h: nat, id: nat)
    requires h < |s.handles| && t.fallbacks == s.fallbacks && id >= s.fallbacks
    requires |t.handles| == |s.handles| && t.handles == s.handles[h := t.handles[h]] && t.handles[h].fallbacks == s.handles[h].fallbacks
    requires forall x :: x != id ==> (x in t.handles[h].pipes <==> x in s.handles[h].pipes)
    ensures forall g: nat :: Owner(s, g) ==> Owner(t, g)
  {
  }

  // Every fallback id is taken.
  lemma FrontTaken(s: State)
    requires FrontInv(s)
    ensures forall x: nat :: x < s.alloc.fallbacks ==> x in s.alloc.pipes
  {
    forall x: nat | x < s.alloc.fallbacks ensures x in s.alloc.pipes {
      var g: nat :| Owner(s.alloc, g);
      assert x in s.alloc.handles[g].pipes;
      assert Owned(s.alloc.handles, x);
    }
  }

  lemma RegularStep(s: State, h: nat, id: nat)
    requires FrontInv(s) && Enabled(s.alloc, AllocRegular(h, id))
    ensures FrontInv(Apply(s, AllocRegular(h, id)))
  {
    var t := Apply(s, AllocRegular(h, id));
    StepKeepsInv(s.alloc, AllocRegular(h, id));
    FrontTaken(s);
    RegularKeepsOwners(s.alloc, t.alloc, h, id);
  }

  lemma FreeStep(s: State, h: nat, id: nat)
    requires FrontInv(s) && Enabled(s.alloc, Free(h, id)) && Disciplined(s.alloc, Free(h, id))
    ensures FrontInv(Apply(s, Free(h, id)))
  {
    var t := Apply(s, Free(h, id));
    StepKeepsInv(s.alloc, Free(h, id));
    if id < s.alloc.fallbacks {
      OnlyOwner(s, h, id);
      assert Front(id + 1) - {id} == Front(id);
      assert Owner(t.alloc, h);
      forall g: nat | g < |t.alloc.handles| && g != h ensures t.alloc.handles[g].fallbacks == 0 {
        NoSecondOwner(s, h, g);
      }
    } else {
      RegularKeepsOwners(s.alloc, t.alloc, h, id);
    }
  }

  lemma ReleaseStep(s: State, h: nat)
    requires FrontInv(s) && h < |s.alloc.handles|
    ensures FrontInv(Apply(s, Release(h)))
  {
    var t := Apply(s, Release(h));
    StepKeepsInv(s.alloc, Release(h));
    if s.alloc.handles[h].fallbacks > 0 {
      assert Owner(s.alloc, h);
      assert s.ids - s.alloc.handles[h].pipes == Front(0);
      forall g | 0 <= g < |t.alloc.handles| ensures t.alloc.handles[g].fallbacks == 0 {
        NoSecondOwner(s, h, if g < h then g else g + 1);
      }
    } else {
      ReleaseOther(s, h);
    }
  }

  lemma NoSecondOwner(s: State, h: nat, g: nat)
    requires FrontInv(s) && Owner(s.alloc, h) && s.alloc.fallbacks > 0 && g < |s.alloc.handles| && g != h
    ensures s.alloc.handles[g].fallbacks == 0
  {
    assert 0 in Front(s.alloc.fallbacks);
    assert !Owner(s.alloc, g) by {
      if Owner(s.alloc, g) {
        OneOwner(s.alloc, g, h, 0);
      }
    }
  }

  lemma ReleaseOther(s: State, h: nat)
    requires FrontInv(s) && h < |s.alloc.handles| && s.alloc.handles[h].fallbacks == 0
    ensures FrontInv(Apply(s, Release(h)))
  {
    var t := Apply(s, Release(h));
    StepKeepsInv(s.alloc, Release(h));
    forall g | 0 <= g < |t.alloc.handles| && t.alloc.handles[g].fallbacks > 0 ensures Owner(t.alloc, g) {
      var g0 := if g < h then g else g + 1;
      assert t.alloc.handles[g] == s.alloc.handles[g0];
      assert Owner(s.alloc, g0);
    }
    if s.alloc.fallbacks > 0 {
      var g: nat :| Owner(s.alloc, g);
      assert g < h ==> s.alloc.handles[g].pipes !! s.alloc.handles[h].pipes;
      assert h < g ==> s.alloc.handles[h].pipes !! s.alloc.handles[g].pipes;
      var g1 := if g < h then g else g - 1;
      assert t.alloc.handles[g1] == s.alloc.handles[g];
      assert Owner(t.alloc, g1);
      assert s.ids - s.alloc.handles[h].pipes == s.ids;
    } else {
      assert s.ids - s.alloc.handles[h].pipes == s.ids;
    }
  }

  lemma OpenStep(s: State)
    requires FrontInv(s)
    ensures FrontInv(Apply(s, Open))
  {
    var t := Apply(s, Open);
    StepKeepsInv(s.alloc, Open);
    forall g: nat | Owner(s.alloc, g) ensures Owner(t.alloc, g) {
      assert t.alloc.handles[g] == s.alloc.handles[g];
    }
  }

  lemma DisciplinedStep(s: State, op: Op)
    requires FrontInv(s) && Enabled(s.alloc, op) && Disciplined(s.alloc, op)
    ensures FrontInv(Apply(s, op))
  {
    match op
    case Open => OpenStep(s);
    case AllocFallback(h, id) => FallbackStep(s, h, id);
    case AllocRegular(h, id) => RegularStep(s, h, id);
    case Free(h, id) => FreeStep(s, h, id);
    case Release(h) => ReleaseStep(s, h);
  }

  ghost predicate IsDisciplinedRun(states: seq<State>, ops: seq<Op>) {
    && |states| == |ops| + 1
    && states[0] == State(Alloc({}, 0, []), {})
    && forall i {:trigger ops[i]} :: 0 <= i < |ops| ==>
         && Enabled(states[i].alloc, ops[i]) && Disciplined(states[i].alloc, ops[i])
         && states[i + 1] == Apply(states[i], ops[i])
  }

  // In every disciplined run the fallback pipes are exactly 0 .. nb_fb_queues - 1, and
  // all of them are allocated.
  lemma {:induction false} FallbackIdsAreFront(states: seq<State>, ops: seq<Op>, k: nat)
    requires IsDisciplinedRun(states, ops) && k < |states|
    ensures FrontInv(states[k])
    ensures states[k].ids == Front(states[k].alloc.fallbacks) <= states[k].alloc.pipes
  {
    if k == 0 {
      assert Front(0) == {};
    } else {
      FallbackIdsAreFront(states, ops, k - 1);
      DisciplinedStep(states[k - 1], ops[k - 1]);
    }
    var s := states[k];
    forall x | x in s.ids ensures x in s.alloc.pipes {
      var h: nat :| Owner(s.alloc, h);
      assert x in s.alloc.handles[h].pipes;
      assert Owned(s.alloc.handles, x);
    }
  }

  // Freeing a fallback pipe keeps them at the front exactly when it is the last one.
  lemma FreeKeepsFrontIffLast(s: State, h: nat, id: nat)
    requires FrontInv(s) && Enabled(s.alloc, Free(h, id)) && id < s.alloc.fallbacks
    ensures Apply(s, Free(h, id)).ids == Front(Apply(s, Free(h, id)).alloc.fallbacks)
       <==> id == s.alloc.fallbacks - 1
  {
    var t := Apply(s, Free(h, id));
    var n := s.alloc.fallbacks;
    assert t.alloc.fallbacks == n - 1 && t.ids == Front(n) - {id};
    if id == n - 1 {
      assert Front(n) - {id} == Front(n - 1);
    } else {
      assert n - 1 in t.ids && n - 1 !in Front(n - 1);
    }
  }

  // The mask for n fallback pipes: count the bits of n by shifting it out.
  method FallbackMask(nbFallbackQueues: nat) returns (mask: nat)
    ensures nbFallbackQueues == 0 ==> mask == 0
    ensures nbFallbackQueues > 0 ==> mask + 1 == Pow2(Log2(nbFallbackQueues))
  {
    var n: nat, cnt: nat := nbFallbackQueues, 0;
    while n > 0
      invariant n > 0 ==> nbFallbackQueues > 0 && Log2(nbFallbackQueues) == Log2(n) + cnt
      invariant n == 0 ==> if nbFallbackQueues == 0 then cnt == 0 else cnt == Log2(nbFallbackQueues) + 1
    {
      n := n / 2;
      cnt := cnt + 1;
    }
    mask := if cnt != 0 then Pow2(cnt - 1) - 1 else 0;
  }

  // Steering never picks a dead pipe: for every hash, hash & mask is a live fallback
  // pipe of the disciplined allocator.
  lemma SteeringIsLive(states: seq<State>, ops: seq<Op>, k: nat, mask: nat, hash: nat)
    requires IsDisciplinedRun(states, ops) && k < |states| && states[k].alloc.fallbacks > 0
    requires mask + 1 == Pow2(Log2(states[k].alloc.fallbacks))
    ensures And(hash, mask) in states[k].ids && And(hash, mask) in states[k].alloc.pipes
    ensures And(hash, mask) == hash % (mask + 1)
  {
    FallbackIdsAreFront(states, ops, k);
    AndIsMod(hash, Log2(states[k].alloc.fallbacks));
  }
}
