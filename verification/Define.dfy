/** Integer widths and constants shared by the model (include/translib/define.h). */
module Define {
  type byte = x: int | 0 <= x < 0x100
  type uint16 = x: int | 0 <= x < 0x1_0000
  type uint32 = x: int | 0 <= x < 0x1_0000_0000
  type uint64 = x: int | 0 <= x < 0x1_0000_0000_0000_0000

  const TWO_TO_THE_16 := 0x1_0000
  const TWO_TO_THE_24 := 0x100_0000
  const TWO_TO_THE_32 := 0x1_0000_0000
  const TWO_TO_THE_64 := 0x1_0000_0000_0000_0000

  const TPKT1_LENGTH := 4
  const TPKT_VERSION1_LOW_BYTE: byte := 1

  const SESSION_ID_INVALID: uint64 := 0
  const SOCKET_FD_INVALID := -1

  datatype Option<+T> = None | Some(value: T)

  function Min(a: int, b: int): int {
    if a <= b then a else b
  }

  function Max(a: int, b: int): int {
    if a <= b then b else a
  }

  /** The bytes of a list of pieces, in order. */
  function Concat(pieces: seq<seq<byte>>): seq<byte> {
    if pieces == [] then [] else pieces[0] + Concat(pieces[1..])
  }
}
