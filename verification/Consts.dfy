// Sizes shared by the rings, buffers and pages of the NIC/application protocol.
module Consts {
  const BATCH_SIZE: nat := 64
  const NOTIFICATION_BUF_SIZE: nat := 16384
  const ENSO_PIPE_SIZE: nat := 32768
  const MAX_NB_FLOWS: nat := 8192
  const MAX_NB_APPS: nat := 1024
  const FLIT: nat := 64
  const BUF_PAGE_SIZE: nat := 2097152
  const MAX_TRANSFER_LEN: nat := 131072
  const MAX_PENDING_TX_REQUESTS: nat := 16383
  const MAX_CAPACITY: nat := 2097088
  const U16: nat := 0x1_0000
  const U32: nat := 0x1_0000_0000

  function Min(a: nat, b: nat): nat { if a <= b then a else b }
}
