/** Constants of the network that several parts share. */
module Consensus {
  const COIN: nat := 100000000
  const MAX_MONEY: nat := 21000000 * COIN
  const MAX_BLOCK_SIZE: nat := 1000000
}
