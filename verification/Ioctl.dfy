// The ioctls that allocate and free pipes, on the byte arrays the module keeps, with
// the bit scans of the code. Each refines a step of Allocator.
module Ioctl {
  import opened Consts
  import opened Bitmap
  import A = Allocator

  const NBYTES: nat := MAX_NB_FLOWS / 8

  const EINVAL: int := 22
  const ENOMEM: int := 12

  // The pipes whose bit is set.
  ghost function PipeSet(bits: seq<bv8>): (r: set<nat>)
    ensures forall i: nat :: i in r <==> i < 8 * |bits| && Test(bits, i)
  {
    set i: nat | i < 8 * |bits| && Test(bits, i)
  }

  // The byte after j shifts by one to the right, or to the left.
  function ShiftRight(b: bv8, j: nat): bv8 {
    match j
    case 0 => b case 1 => b >> 1 case 2 => b >> 2 case 3 => b >> 3
    case 4 => b >> 4 case 5 => b >> 5 case 6 => b >> 6 case 7 => b >> 7 case _ => 0
  }

  function ShiftLeft(b: bv8, j: nat): bv8 {
    match j
    case 0 => b case 1 => b << 1 case 2 => b << 2 case 3 => b << 3
    case 4 => b << 4 case 5 => b << 5 case 6 => b << 6 case 7 => b << 7 case _ => 0
  }

  lemma ShiftMore(b: bv8, j: nat)
    ensures ShiftRight(b, j) >> 1 == ShiftRight(b, j + 1)
    ensures ShiftLeft(b, j) << 1 == ShiftLeft(b, j + 1)
  {
  }

  lemma LowBit(b: bv8, j: nat)
    requires j < 8
    ensures ShiftRight(b, j) & 0x01 != 0 <==> Bit(b, j)
  {
  }

  lemma HighBit(b: bv8, j: nat)
    requires j < 8
    ensures ShiftLeft(b, j) & 0x80 != 0 <==> Bit(b, 7 - j)
  {
  }

  // set >>= 1 and set <<= 1
  method RightByOne(s: bv8, ghost b: bv8, ghost j: nat) returns (r: bv8)
    requires s == ShiftRight(b, j)
    ensures r == ShiftRight(b, j + 1)
  {
    ShiftMore(b, j);
    r := s >> 1;
  }

  method LeftByOne(s: bv8, ghost b: bv8, ghost j: nat) returns (r: bv8)
    requires s == ShiftLeft(b, j)
    ensures r == ShiftLeft(b, j + 1)
  {
    ShiftMore(b, j);
    r := s << 1;
  }

  // The first clear bit of a byte from below; 8 when there is none.
  method LowestClearBit(b: bv8) returns (j: nat)
    ensures j <= 8 && (j < 8 ==> !Bit(b, j))
    ensures forall k :: 0 <= k < j ==> Bit(b, k)
  {
    j := 0;
    var s := b;
    while s & 0x01 != 0
      invariant j <= 8 && s == ShiftRight(b, j)
      invariant forall k :: 0 <= k < j ==> Bit(b, k)
      decreases 8 - j
    {
      LowBit(b, j);
      s := RightByOne(s, b, j);
      j := j + 1;
    }
    if j < 8 {
      LowBit(b, j);
    }
  }

  // The first clear bit of a byte from above; -1 when there is none.
  method HighestClearBit(b: bv8) returns (j: int)
    ensures -1 <= j < 8 && (j >= 0 ==> !Bit(b, j))
    ensures forall k :: j < k < 8 ==> Bit(b, k)
  {
    j := 7;
    var s := b;
    while s & 0x80 != 0
      invariant -1 <= j < 8 && s == ShiftLeft(b, 7 - j)
      invariant forall k :: j < k < 8 ==> Bit(b, k)
      decreases j + 1
    {
      HighBit(b, 7 - j);
      s := LeftByOne(s, b, 7 - j);
      j := j - 1;
    }
    if j >= 0 {
      HighBit(b, 7 - j);
    }
  }

  lemma ByteOfIndex(i: nat, q: nat, j: nat)
    requires j < 8 && i == 8 * q + j
    ensures i / 8 == q && i % 8 == j
  {
  }

  // Scans the bytes upwards for the lowest free id; -1 when all are taken.
  method ScanUp(bits: array<bv8>) returns (id: int)
    ensures id == -1 ==> forall k :: 0 <= k < 8 * bits.Length ==> Test(bits[..], k)
    ensures id != -1 ==> 0 <= id < 8 * bits.Length && !Test(bits[..], id)
    ensures id != -1 ==> forall k :: 0 <= k < id ==> Test(bits[..], k)
  {
    for i := 0 to bits.Length
      invariant forall k :: 0 <= k < 8 * i ==> Test(bits[..], k)
    {
      var j := LowestClearBit(bits[i]);
      if j < 8 {
        ByteOfIndex(8 * i + j, i, j);
        return 8 * i + j;
      }
    }
    id := -1;
  }

  // Scans the bytes downwards for the highest free id; -1 when all are taken.
  method ScanDown(bits: array<bv8>) returns (id: int)
    ensures id == -1 ==> forall k :: 0 <= k < 8 * bits.Length ==> Test(bits[..], k)
    ensures id != -1 ==> 0 <= id < 8 * bits.Length && !Test(bits[..], id)
    ensures id != -1 ==> forall k :: id < k < 8 * bits.Length ==> Test(bits[..], k)
  {
    for i := bits.Length downto 0
      invariant forall k :: 8 * i <= k < 8 * bits.Length ==> Test(bits[..], k)
    {
      var j := HighestClearBit(bits[i]);
      if j >= 0 {
        ByteOfIndex(8 * i + j, i, j);
        return 8 * i + j;
      }
    }
    id := -1;
  }

  lemma SetAdds(bits: seq<bv8>, i: nat)
    requires i < 8 * |bits|
    ensures PipeSet(WithBit(bits, i)) == PipeSet(bits) + {i}
    ensures PipeSet(WithoutBit(bits, i)) == PipeSet(bits) - {i}
  {
    forall k: nat | k < 8 * |bits|
      ensures k in PipeSet(WithBit(bits, i)) <==> k in PipeSet(bits) + {i}
      ensures k in PipeSet(WithoutBit(bits, i)) <==> k in PipeSet(bits) - {i}
    {
      UpdateBit(bits, i, k);
    }
  }

  class Bookkeeping {
    const pipeStatus: array<bv8>
    var nbFbQueues: nat

    constructor ()
      ensures fresh(pipeStatus) && pipeStatus.Length == NBYTES && nbFbQueues == 0
      ensures forall i :: 0 <= i < NBYTES ==> pipeStatus[i] == 0
    {
      pipeStatus := new bv8[NBYTES](_ => 0);
      nbFbQueues := 0;
    }

    ghost predicate Valid()
      reads this, pipeStatus
    {
      pipeStatus.Length == NBYTES && nbFbQueues < U32
    }

    ghost function Pipes(): set<nat>
      reads pipeStatus
    {
      PipeSet(pipeStatus[..])
    }
  }

  // alloc_pipe: fallback pipes at the front and only contiguously, others at the back.
  method AllocPipe(dev: Bookkeeping, chr: Bookkeeping, isFallback: bool) returns (ret: int, id: int)
    requires dev.Valid() && chr.Valid() && dev != chr && dev.pipeStatus != chr.pipeStatus
    modifies dev`nbFbQueues, chr`nbFbQueues, dev.pipeStatus, chr.pipeStatus
    ensures dev.Valid() && chr.Valid()
    ensures ret == -ENOMEM <==> A.NoneFree(old(dev.Pipes()))
    ensures ret == -EINVAL <==>
              isFallback && !A.NoneFree(old(dev.Pipes())) && !A.IsLowestFree(old(dev.Pipes()), old(dev.nbFbQueues))
    ensures ret == 0 || ret == -EINVAL || ret == -ENOMEM
    ensures ret != 0 ==> dev.Pipes() == old(dev.Pipes()) && chr.Pipes() == old(chr.Pipes())
                         && dev.nbFbQueues == old(dev.nbFbQueues) && chr.nbFbQueues == old(chr.nbFbQueues)
    ensures ret == 0 ==>
              && 0 <= id < MAX_NB_FLOWS
              && dev.Pipes() == old(dev.Pipes()) + {id} && chr.Pipes() == old(chr.Pipes()) + {id}
    ensures ret == 0 && isFallback ==>
              && A.IsLowestFree(old(dev.Pipes()), id) && id == old(dev.nbFbQueues)
              && dev.nbFbQueues == (old(dev.nbFbQueues) + 1) % U32
              && chr.nbFbQueues == (old(chr.nbFbQueues) + 1) % U32
    ensures ret == 0 && !isFallback ==>
              && A.IsHighestFree(old(dev.Pipes()), id)
              && dev.nbFbQueues == old(dev.nbFbQueues) && chr.nbFbQueues == old(chr.nbFbQueues)
  {
    ghost var pipes := dev.Pipes();
    if isFallback {
      id := ScanUp(dev.pipeStatus);
      assert id != -1 ==> id !in pipes && A.IsLowestFree(pipes, id);
      assert id != -1 && id != dev.nbFbQueues ==> !A.IsLowestFree(pipes, dev.nbFbQueues) by {
        if id != -1 && id < dev.nbFbQueues {
          assert id !in pipes;
        }
      }
      if id >= 0 {
        if id != dev.nbFbQueues {
          return -EINVAL, id;
        }
        dev.nbFbQueues := (dev.nbFbQueues + 1) % U32;
        chr.nbFbQueues := (chr.nbFbQueues + 1) % U32;
      }
    } else {
      id := ScanDown(dev.pipeStatus);
      assert id != -1 ==> id !in pipes && A.IsHighestFree(pipes, id);
    }
    assert id == -1 <==> A.NoneFree(pipes);
    if id < 0 {
      return -ENOMEM, id;
    }
    SetAdds(dev.pipeStatus[..], id);
    SetAdds(chr.pipeStatus[..], id);
    SetBit(dev.pipeStatus, id);
    SetBit(chr.pipeStatus, id);
    return 0, id;
  }

  // free_pipe: only a pipe of this handle.
  method FreePipe(dev: Bookkeeping, chr: Bookkeeping, id: int) returns (ret: int)
    requires dev.Valid() && chr.Valid() && dev != chr && dev.pipeStatus != chr.pipeStatus
    modifies dev`nbFbQueues, chr`nbFbQueues, dev.pipeStatus, chr.pipeStatus
    ensures dev.Valid() && chr.Valid()
    ensures ret == if 0 <= id < MAX_NB_FLOWS && id in old(chr.Pipes()) then 0 else -EINVAL
    ensures ret == 0 ==>
              && dev.Pipes() == old(dev.Pipes()) - {id} && chr.Pipes() == old(chr.Pipes()) - {id}
              && var d := if id < old(dev.nbFbQueues) then 1 else 0;
                 && dev.nbFbQueues == (old(dev.nbFbQueues) - d) % U32
                 && chr.nbFbQueues == (old(chr.nbFbQueues) - d) % U32
    ensures ret != 0 ==> dev.Pipes() == old(dev.Pipes()) && chr.Pipes() == old(chr.Pipes())
                         && dev.nbFbQueues == old(dev.nbFbQueues) && chr.nbFbQueues == old(chr.nbFbQueues)
  {
    if id < 0 || id >= MAX_NB_FLOWS {
      return -EINVAL;
    }
    var mine := TestBit(chr.pipeStatus, id);
    if !mine {
      return -EINVAL;
    }
    SetAdds(dev.pipeStatus[..], id);
    SetAdds(chr.pipeStatus[..], id);
    ClearBit(dev.pipeStatus, id);
    ClearBit(chr.pipeStatus, id);
    if id < dev.nbFbQueues {
      dev.nbFbQueues := (dev.nbFbQueues - 1) % U32;
      chr.nbFbQueues := (chr.nbFbQueues - 1) % U32;
    }
    return 0;
  }

  lemma ClearByte(a: bv8, b: bv8, j: nat)
    requires j < 8
    ensures Bit(a & !b, j) == (Bit(a, j) && !Bit(b, j))
  {
  }

  // chr_release: clears in the device whatever the handle holds, byte by byte.
  method Release(dev: Bookkeeping, chr: Bookkeeping)
    requires dev.Valid() && chr.Valid() && dev != chr && dev.pipeStatus != chr.pipeStatus
    modifies dev`nbFbQueues, dev.pipeStatus
    ensures dev.Valid() && dev.Pipes() == old(dev.Pipes()) - chr.Pipes()
    ensures dev.nbFbQueues == (old(dev.nbFbQueues) - chr.nbFbQueues) % U32
  {
    var i := 0;
    while i < NBYTES
      invariant 0 <= i <= NBYTES && dev.nbFbQueues == old(dev.nbFbQueues)
      invariant forall q :: 0 <= q < i ==> dev.pipeStatus[q] == old(dev.pipeStatus[q]) & !chr.pipeStatus[q]
      invariant forall q :: i <= q < NBYTES ==> dev.pipeStatus[q] == old(dev.pipeStatus[q])
    {
      dev.pipeStatus[i] := dev.pipeStatus[i] & !chr.pipeStatus[i];
      i := i + 1;
    }
    forall k: nat | k < MAX_NB_FLOWS
      ensures k in dev.Pipes() <==> k in old(dev.Pipes()) - chr.Pipes()
    {
      ClearByte(old(dev.pipeStatus[k / 8]), chr.pipeStatus[k / 8], k % 8);
    }
    assert dev.Pipes() == old(dev.Pipes()) - chr.Pipes();
    dev.nbFbQueues := (dev.nbFbQueues - chr.nbFbQueues) % U32;
  }

  // One device and its open handles: every call is a step of the allocator.
  class Driver {
    const dev: Bookkeeping
    var handles: seq<Bookkeeping>

    ghost function Abs(): A.Alloc
      reads this, dev, dev.pipeStatus, handles, set h | h in handles :: h.pipeStatus
    {
      A.Alloc(dev.Pipes(), dev.nbFbQueues,
              seq(|handles|, i requires 0 <= i < |handles| reads this, handles, set h | h in handles :: h.pipeStatus
                             => A.Handle(handles[i].Pipes(), handles[i].nbFbQueues)))
    }

    ghost predicate Valid()
      reads this, dev, dev.pipeStatus, handles, set h | h in handles :: h.pipeStatus
    {
      && dev.Valid()
      && (forall i :: 0 <= i < |handles| ==>
            handles[i].Valid() && handles[i] != dev && handles[i].pipeStatus != dev.pipeStatus)
      && (forall i, j :: 0 <= i < j < |handles| ==>
            handles[i] != handles[j] && handles[i].pipeStatus != handles[j].pipeStatus)
      && A.Inv(Abs())
    }

    constructor ()
      ensures Valid() && Abs() == A.Alloc({}, 0, [])
    {
      dev := new Bookkeeping();
      handles := [];
      new;
      NoBits(dev.pipeStatus[..]);
    }

    method Open()
      requires Valid()
      modifies this
      ensures Valid() && Abs() == A.Apply(old(Abs()), A.Open)
    {
      var h := new Bookkeeping();
      NoBits(h.pipeStatus[..]);
      handles := handles + [h];
      assert Abs() == A.Apply(old(Abs()), A.Open);
      A.StepKeepsInv(old(Abs()), A.Open);
    }

    method Alloc(k: nat, isFallback: bool) returns (ret: int, id: int)
      requires Valid() && k < |handles|
      modifies dev, dev.pipeStatus, handles, set h | h in handles :: h.pipeStatus
      ensures Valid()
      ensures ret == -ENOMEM <==> A.NoneFree(old(Abs()).pipes)
      ensures ret != 0 ==> Abs() == old(Abs())
      ensures ret == 0 ==> id >= 0
      ensures ret == 0 ==>
                (var op := if isFallback then A.AllocFallback(k, id) else A.AllocRegular(k, id);
                 A.Enabled(old(Abs()), op) && Abs() == A.Apply(old(Abs()), op))
    {
      ghost var s := Abs();
      ret, id := AllocPipe(dev, handles[k], isFallback);
      if ret == 0 {
        ghost var op := if isFallback then A.AllocFallback(k, id) else A.AllocRegular(k, id);
        assert Abs() == A.Apply(s, op);
        A.StepKeepsInv(s, op);
      } else {
        assert Abs() == s;
      }
    }

    method Free(k: nat, id: int) returns (ret: int)
      requires Valid() && k < |handles|
      modifies dev, dev.pipeStatus, handles, set h | h in handles :: h.pipeStatus
      ensures Valid()
      ensures ret == 0 <==> id >= 0 && A.Enabled(old(Abs()), A.Free(k, id))
      ensures Abs() == if ret == 0 then A.Apply(old(Abs()), A.Free(k, id)) else old(Abs())
    {
      ghost var s := Abs();
      ret := FreePipe(dev, handles[k], id);
      if ret == 0 {
        assert Abs() == A.Apply(s, A.Free(k, id));
        A.StepKeepsInv(s, A.Free(k, id));
      } else {
        assert Abs() == s;
      }
    }

    method Close(k: nat)
      requires Valid() && k < |handles|
      modifies this, dev, dev.pipeStatus
      ensures Valid() && Abs() == A.Apply(old(Abs()), A.Release(k))
    {
      ghost var s := Abs();
      Release(dev, handles[k]);
      handles := handles[..k] + handles[k + 1..];
      assert Abs() == A.Apply(s, A.Release(k));
      A.StepKeepsInv(s, A.Release(k));
    }
  }

  lemma NoBits(bits: seq<bv8>)
    requires forall i :: 0 <= i < |bits| ==> bits[i] == 0
    ensures PipeSet(bits) == {}
  {
    forall i: nat | i < 8 * |bits| ensures !Test(bits, i) {
      ZeroByte(i % 8);
    }
  }

  lemma ZeroByte(j: nat)
    requires j < 8
    ensures !Bit(0, j)
  {
  }
}
