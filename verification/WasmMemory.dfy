/** `WasmMemory`: a byte vector whose length is a multiple of the page size, with
    bounds-checked little-endian scalar access and bulk operations. */
module WasmMemory {

  type Byte = b: nat | b < 256

  const PAGE_SIZE: nat := 65536
  const USIZE: nat := 0x1_0000_0000_0000_0000

  /** Result of an unchecked access behind its bounds test. `Undefined` is an access outside
      the vector, which the test lets through only when its limit has wrapped. */
  datatype Access<T> = Ok(value: T) | OutOfBounds | Undefined

  function FromLittleEndian(bs: seq<Byte>): nat {
    if bs == [] then 0 else bs[0] + 256 * FromLittleEndian(bs[1..])
  }

  function ToLittleEndian(v: nat, width: nat): (bs: seq<Byte>)
    ensures |bs| == width
  {
    if width == 0 then [] else [v % 256] + ToLittleEndian(v / 256, width - 1)
  }

  /** `effective_address(offset, index, len - (width - 1))`, the subtraction wrapping. */
  function EffectiveAddress(offset: nat, index: nat, len: nat, width: nat): Access<nat>
    requires 1 <= width <= 8
  {
    var limit := if len >= width - 1 then len - (width - 1) else len + USIZE - (width - 1);
    var ea := offset + index;
    if ea >= limit then OutOfBounds else if ea + width <= len then Ok(ea) else Undefined
  }

  function Read(data: seq<Byte>, offset: nat, index: nat, width: nat): Access<nat>
    requires 1 <= width <= 8
  {
    match EffectiveAddress(offset, index, |data|, width)
    case Ok(ea) => if ea + width <= |data| then Ok(FromLittleEndian(data[ea..ea + width])) else Undefined
    case OutOfBounds => OutOfBounds
    case Undefined => Undefined
  }

  function Write(data: seq<Byte>, offset: nat, index: nat, width: nat, v: nat): Access<seq<Byte>>
    requires 1 <= width <= 8
  {
    match EffectiveAddress(offset, index, |data|, width)
    case Ok(ea) =>
      if ea + width <= |data| then Ok(data[..ea] + ToLittleEndian(v, width) + data[ea + width..]) else Undefined
    case OutOfBounds => OutOfBounds
    case Undefined => Undefined
  }

  function Grow(data: seq<Byte>, delta: int, capacity: nat): (seq<Byte>, int) {
    if delta > 0 then
      if |data| + delta * PAGE_SIZE > capacity then (data, -1)
      else (data + seq(delta * PAGE_SIZE, _ => 0), |data| / PAGE_SIZE)
    else if delta == 0 then (data, |data| / PAGE_SIZE)
    else (data, -1)
  }
}
