/** Limits and result codes that several parts share. */
module Common {

  /** The DMX ports of a node, in each direction. */
  const MAX_PORTS := 4

  const MAX_UNIVERSES := 64

  predicate IsUniverse(u: int) {
    1 <= u <= 63999
  }

  const ARTNET_EOK := 0
  const ARTNET_ENET := -1
  const ARTNET_EMEM := -2
  const ARTNET_ESTATE := -4
  const ARTNET_EACTION := -5
}
