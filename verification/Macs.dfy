/** IEEE 802 addresses. */
module Macs {

  newtype Byte = x: int | 0 <= x < 256

  const ETH_ALEN := 6

  type Mac = m: seq<Byte> | |m| == ETH_ALEN witness [0, 0, 0, 0, 0, 0]

  const ZERO: Mac := [0, 0, 0, 0, 0, 0]
}
