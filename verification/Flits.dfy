// Byte counts in 64-byte flits, with the unsigned arithmetic of the code.
module Flits {
  import opened Consts

  const U64: nat := 0x1_0000_0000_0000_0000

  // ((uint64_t)len - 1) / 64 + 1, kept in 32 bits.
  function AdvanceFlits(len: nat): nat { (((len - 1) % U64) / FLIT + 1) % U32 }

  // A count of whole flits advances by exactly that many; freeing nothing moves
  // nothing, because the wrap-around of 0 - 1 cancels out.
  lemma AdvanceWhole(len: nat)
    requires len < U32 && len % FLIT == 0
    ensures AdvanceFlits(len) == len / FLIT
  {
    if len == 0 {
      assert (U64 - 1) / FLIT + 1 == 0x400_0000_0000_0000;
    } else {
      var k := len / FLIT;
      assert len == FLIT * k && (len - 1) % U64 == len - 1;
      assert len - 1 == FLIT * (k - 1) + (FLIT - 1);
      assert (len - 1) / FLIT == k - 1;
    }
  }

  // Any other count is rounded up to whole flits.
  lemma AdvanceRoundsUp(len: nat)
    requires 0 < len < U32
    ensures len <= AdvanceFlits(len) * FLIT < len + FLIT
  {
    var q, r := (len - 1) / FLIT, (len - 1) % FLIT;
    assert len - 1 == FLIT * q + r;
    assert (len - 1) % U64 == len - 1;
    assert AdvanceFlits(len) == q + 1;
  }

  // The ring position of a byte offset moves with it.
  lemma HeadMoves(freed: nat, len: nat)
    requires freed % FLIT == 0 && len % FLIT == 0
    ensures ((freed / FLIT) % ENSO_PIPE_SIZE + len / FLIT) % ENSO_PIPE_SIZE == ((freed + len) / FLIT) % ENSO_PIPE_SIZE
    ensures (freed + len) % FLIT == 0
  {
    var a, b := freed / FLIT, len / FLIT;
    assert freed == FLIT * a && len == FLIT * b;
    assert (freed + len) / FLIT == a + b;
  }
}
