/**
 * The byte-block containers of med: `Bytes` (a data pointer with a size),
 * `MemoryBlock` (a `Bytes` captured at a start address) and `MemoryBlocks`
 * (an append-only list of blocks). Every mutator is a function from the old
 * value to the new one; a null pointer is `None`.
 */
module ByteBlocks {
  import opened Wrappers

  newtype byte = x: int | 0 <= x < 256

  /** A virtual address in the target process (unsigned, unbounded here). */
  type Address = nat

  /** `data` is the buffer pointer (None for NULL); `size` is the C++ `int size`. */
  datatype Bytes = Bytes(data: Option<seq<byte>>, size: int)

  /** The default constructor: null data, size 0. */
  function NewBytes(): (b: Bytes)
    ensures GetData(b).None? && GetSize(b) == 0
  {
    Bytes(None, 0)
  }

  function GetSize(b: Bytes): int {
    b.size
  }

  function GetData(b: Bytes): Option<seq<byte>> {
    b.data
  }

  /** Replaces the pointer and the size; nothing ties one to the other. */
  function SetData(b: Bytes, data: Option<seq<byte>>, size: int): (r: Bytes)
    ensures GetData(r) == data && GetSize(r) == size
  {
    Bytes(data, size)
  }

  /**
   * Releases the buffer: a non-null pointer becomes null and the size 0;
   * a null pointer leaves the value (including its size) untouched.
   */
  function Free(b: Bytes): (r: Bytes)
    ensures GetData(r).None?
    ensures GetData(b).None? ==> r == b
    ensures GetData(b).Some? ==> GetSize(r) == 0
  {
    if b.data.Some? then Bytes(None, 0) else b
  }

  lemma FreeIdempotent(b: Bytes)
    ensures Free(Free(b)) == Free(b)
  {
  }

  /** A capture of `bytes` taken at `address` in the target process. */
  datatype MemoryBlock = MemoryBlock(bytes: Bytes, address: Address)

  /** The bytes a block actually holds (none when its pointer is null). */
  function Content(b: MemoryBlock): seq<byte> {
    b.bytes.data.GetOr([])
  }

  function GetAddress(b: MemoryBlock): Address {
    b.address
  }

  function SetAddress(b: MemoryBlock, address: Address): (r: MemoryBlock)
    ensures GetAddress(r) == address && r.bytes == b.bytes
  {
    b.(address := address)
  }

  /** `setData` followed by `setAddress`. */
  function SetDataWithAddress(b: MemoryBlock, data: Option<seq<byte>>, size: int, address: Address): (r: MemoryBlock)
    ensures GetData(r.bytes) == data && GetSize(r.bytes) == size && GetAddress(r) == address
  {
    SetAddress(b.(bytes := SetData(b.bytes, data, size)), address)
  }

  /** An ordered, append-only list of captured blocks. */
  datatype MemoryBlocks = MemoryBlocks(blocks: seq<MemoryBlock>)

  function NewMemoryBlocks(): (m: MemoryBlocks)
    ensures BlockCount(m) == 0
  {
    MemoryBlocks([])
  }

  /** `MemoryBlocks::getSize`. */
  function BlockCount(m: MemoryBlocks): int {
    |m.blocks|
  }

  /** `MemoryBlocks::getData`: the blocks, in push order. */
  function BlockData(m: MemoryBlocks): seq<MemoryBlock> {
    m.blocks
  }

  /** Appends one block at the end and leaves every earlier block in place. */
  function Push(m: MemoryBlocks, block: MemoryBlock): (r: MemoryBlocks)
    ensures BlockCount(r) == BlockCount(m) + 1
    ensures BlockData(r)[..BlockCount(m)] == BlockData(m)
    ensures BlockData(r)[BlockCount(m)] == block
  {
    MemoryBlocks(m.blocks + [block])
  }

  /** `MemoryBlocks::free`: frees every block's buffer, keeping the blocks. */
  function FreeAll(m: MemoryBlocks): (r: MemoryBlocks)
    ensures BlockCount(r) == BlockCount(m)
    ensures forall i :: 0 <= i < |r.blocks| ==> r.blocks[i].bytes == Free(m.blocks[i].bytes)
    ensures forall i :: 0 <= i < |r.blocks| ==> r.blocks[i].address == m.blocks[i].address
  {
    MemoryBlocks(seq(|m.blocks|, i requires 0 <= i < |m.blocks| => m.blocks[i].(bytes := Free(m.blocks[i].bytes))))
  }

  /** Frees every buffer (see `FreeAll`) and then empties the list. */
  function Clear(m: MemoryBlocks): (r: MemoryBlocks)
    ensures BlockCount(r) == 0
  {
    MemoryBlocks([])
  }

  /** Pushes `bs` one after another, first element first. */
  function PushAll(m: MemoryBlocks, bs: seq<MemoryBlock>): MemoryBlocks
    decreases |bs|
  {
    if |bs| == 0 then m else PushAll(Push(m, bs[0]), bs[1..])
  }

  /** `getData` hands the blocks back in the order they were pushed. */
  lemma {:induction false} PushAllThenData(m: MemoryBlocks, bs: seq<MemoryBlock>)
    ensures BlockData(PushAll(m, bs)) == BlockData(m) + bs
    ensures BlockCount(PushAll(m, bs)) == BlockCount(m) + |bs|
    decreases |bs|
  {
    if |bs| > 0 {
      PushAllThenData(Push(m, bs[0]), bs[1..]);
      assert BlockData(m) + bs == (BlockData(m) + [bs[0]]) + bs[1..];
    }
  }
}
