/**
 Byte order on the two machine kinds: the Swap and CheckAndSwap overloads of
 libs/utility/memoryutility.h:73-144, and what an integer looks like in memory.
 */
module ByteOrder {
  type byte = bv8

  datatype Machine = LittleEndian | BigEndian

  function Swap16(v: bv16): bv16 { ((v & 0xff) << 8) | ((v >> 8) & 0xff) }

  function Swap32(v: bv32): bv32 {
    ((v & 0xff) << 24) | ((v >> 24) & 0xff) | ((v & 0xff00) << 8) | ((v >> 8) & 0xff00)
  }

  function Swap64(v: bv64): bv64 {
    ((v & 0xff) << 56) | ((v >> 56) & 0xff) | ((v & 0xff00) << 40) | ((v >> 40) & 0xff00)
    | ((v & 0xff_0000) << 24) | ((v >> 24) & 0xff_0000) | ((v & 0xff00_0000) << 8) | ((v >> 8) & 0xff00_0000)
  }

  function CheckAndSwap16(m: Machine, v: bv16): bv16 { if m.BigEndian? then v else Swap16(v) }

  function CheckAndSwap32(m: Machine, v: bv32): bv32 { if m.BigEndian? then v else Swap32(v) }

  function CheckAndSwap64(m: Machine, v: bv64): bv64 { if m.BigEndian? then v else Swap64(v) }

  type Two = (byte, byte)
  type Four = (byte, byte, byte, byte)
  type Eight = (byte, byte, byte, byte, byte, byte, byte, byte)

  /** The bytes of v, most significant first: network order. */
  function Network16(v: bv16): Two { ((v >> 8) as byte, (v & 0xff) as byte) }

  function Network32(v: bv32): Four {
    ((v >> 24) as byte, ((v >> 16) & 0xff) as byte, ((v >> 8) & 0xff) as byte, (v & 0xff) as byte)
  }

  function Network64(v: bv64): Eight {
    ((v >> 56) as byte, ((v >> 48) & 0xff) as byte, ((v >> 40) & 0xff) as byte, ((v >> 32) & 0xff) as byte,
     ((v >> 24) & 0xff) as byte, ((v >> 16) & 0xff) as byte, ((v >> 8) & 0xff) as byte, (v & 0xff) as byte)
  }

  /** Bytes from the lowest address up to bytes from the most significant down, and back: the same map. */
  function Order16(m: Machine, b: Two): Two { if m.BigEndian? then b else (b.1, b.0) }

  function Order32(m: Machine, b: Four): Four { if m.BigEndian? then b else (b.3, b.2, b.1, b.0) }

  function Order64(m: Machine, b: Eight): Eight {
    if m.BigEndian? then b else (b.7, b.6, b.5, b.4, b.3, b.2, b.1, b.0)
  }

  /** The bytes of v as machine m keeps them in memory, lowest address first. */
  function Memory16(m: Machine, v: bv16): Two { Order16(m, Network16(v)) }

  function Memory32(m: Machine, v: bv32): Four { Order32(m, Network32(v)) }

  function Memory64(m: Machine, v: bv64): Eight { Order64(m, Network64(v)) }

  /** The integer with the given bytes, most significant first. */
  function Join16(b: Two): bv16 { ((b.0 as bv16) << 8) | (b.1 as bv16) }

  function Join32(b: Four): bv32 {
    ((b.0 as bv32) << 24) | ((b.1 as bv32) << 16) | ((b.2 as bv32) << 8) | (b.3 as bv32)
  }

  function Join64(b: Eight): bv64 {
    ((Join32((b.0, b.1, b.2, b.3)) as bv64) << 32) | (Join32((b.4, b.5, b.6, b.7)) as bv64)
  }

  /** The integer that machine m sees in the given bytes of memory. */
  function Load16(m: Machine, b: Two): bv16 { Join16(Order16(m, b)) }

  function Load32(m: Machine, b: Four): bv32 { Join32(Order32(m, b)) }

  function Load64(m: Machine, b: Eight): bv64 { Join64(Order64(m, b)) }

  /** Network order is most significant first; a little-endian machine keeps the least significant first. */
  lemma OrderOfBytes()
    ensures Network16(0x0102) == (1, 2) && Network32(0x0102_0304) == (1, 2, 3, 4)
    ensures Network64(0x0102_0304_0506_0708) == (1, 2, 3, 4, 5, 6, 7, 8)
    ensures Memory16(LittleEndian, 0x0102) == (2, 1) && Memory32(LittleEndian, 0x0102_0304) == (4, 3, 2, 1)
    ensures Memory64(LittleEndian, 0x0102_0304_0506_0708) == (8, 7, 6, 5, 4, 3, 2, 1)
    ensures Memory32(BigEndian, 0x0102_0304) == (1, 2, 3, 4) && Join32((1, 2, 3, 4)) == 0x0102_0304
  {}

  /** An integer is the join of its bytes. */
  lemma JoinNetwork16(v: bv16)
    ensures Join16(Network16(v)) == v
  {}

  lemma JoinNetwork32(v: bv32)
    ensures Join32(Network32(v)) == v
  {}

  lemma JoinNetwork64(v: bv64)
    ensures Join64(Network64(v)) == v
  {}

  /** Swapping an integer reverses its bytes. */
  lemma SwapReverses16(v: bv16)
    ensures Network16(Swap16(v)) == Order16(LittleEndian, Network16(v))
  {}

  lemma SwapReverses32(v: bv32)
    ensures Network32(Swap32(v)) == Order32(LittleEndian, Network32(v))
  {}

  lemma SwapReverses64(v: bv64)
    ensures Network64(Swap64(v)) == Order64(LittleEndian, Network64(v))
  {}

  /** On either machine a swapped integer lies in memory in network order. */
  lemma Swapped16(m: Machine, v: bv16)
    ensures Memory16(m, CheckAndSwap16(m, v)) == Network16(v)
  {
    SwapReverses16(v);
  }

  lemma Swapped32(m: Machine, v: bv32)
    ensures Memory32(m, CheckAndSwap32(m, v)) == Network32(v)
  {
    SwapReverses32(v);
  }

  lemma Swapped64(m: Machine, v: bv64)
    ensures Memory64(m, CheckAndSwap64(m, v)) == Network64(v)
  {
    SwapReverses64(v);
  }

  /** On either machine loading network order and swapping gives the integer back. */
  lemma ReadBack16(m: Machine, v: bv16)
    ensures CheckAndSwap16(m, Load16(m, Network16(v))) == v
  {
    JoinNetwork16(v);
    SwapReverses16(v);
    JoinNetwork16(Swap16(v));
    SwapTwice16(v);
  }

  lemma ReadBack32(m: Machine, v: bv32)
    ensures CheckAndSwap32(m, Load32(m, Network32(v))) == v
  {
    JoinNetwork32(v);
    SwapReverses32(v);
    JoinNetwork32(Swap32(v));
    SwapTwice32(v);
  }

  lemma ReadBack64(m: Machine, v: bv64)
    ensures CheckAndSwap64(m, Load64(m, Network64(v))) == v
  {
    JoinNetwork64(v);
    SwapReverses64(v);
    JoinNetwork64(Swap64(v));
    SwapTwice64(v);
  }

  lemma CheckAndSwapTwice16(m: Machine, v: bv16)
    ensures CheckAndSwap16(m, CheckAndSwap16(m, v)) == v
  {}

  lemma SwapTwice16(v: bv16)
    ensures Swap16(Swap16(v)) == v
  {}

  lemma SwapTwice32(v: bv32)
    ensures Swap32(Swap32(v)) == v
  {}

  lemma SwapTwice64(v: bv64)
    ensures Swap64(Swap64(v)) == v
  {}

  lemma ZeroInMemory(m: Machine)
    ensures Memory16(m, 0) == (0, 0) && Memory32(m, 0) == (0, 0, 0, 0) && Memory64(m, 0) == (0, 0, 0, 0, 0, 0, 0, 0)
  {}
}
