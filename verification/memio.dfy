/**
 * The target process's memory as the scanner sees it, and the comparison
 * operator. A seek on `/proc/<pid>/mem` and the read after it become one
 * `Read` on an abstract memory; `memCompare` stays uninterpreted.
 */
module MemIO {
  import opened Wrappers
  import opened ByteBlocks

  /** The readable bytes of the target process; an unmapped address is absent. */
  type Memory = map<Address, byte>

  /** The comparison operators a scan or filter pass may apply. */
  datatype OpType =
    | Equal | NotEqual | GreaterThan | LessThan | GreaterOrEqual | LessOrEqual
    | Changed | Unchanged | Increased | Decreased

  /**
   * `memCompare(bytes, value, op)`: whether `bytes` stand in relation `op`
   * to `value` under the scan type's decoding. Left uninterpreted.
   */
  type Comparator = (OpType, seq<byte>, seq<byte>) -> bool

  /** Every address of `[addr, addr + n)` is mapped. */
  predicate Readable(mem: Memory, addr: Address, n: nat) {
    forall a :: addr <= a < addr + n ==> a in mem
  }

  /**
   * A seek to `addr` followed by a read of `n` bytes: all `n` bytes, or
   * `None` when the seek or the read fails.
   */
  function Read(mem: Memory, addr: Address, n: nat): (r: Option<seq<byte>>)
    ensures r.Some? <==> Readable(mem, addr, n)
    ensures r.Some? ==> |r.value| == n
    ensures r.Some? ==> forall i :: 0 <= i < n ==> r.value[i] == mem[addr + i]
  {
    if Readable(mem, addr, n) then
      Some(seq(n, i requires 0 <= i < n && Readable(mem, addr, n) => mem[addr + i]))
    else
      None
  }

  /** A read of a sub-range of a successful read succeeds with the matching slice. */
  lemma ReadSlice(mem: Memory, addr: Address, n: nat, j: nat, m: nat)
    requires Read(mem, addr, n).Some?
    requires j + m <= n
    ensures Read(mem, addr + j, m) == Some(Read(mem, addr, n).value[j..j + m])
  {
    var whole := Read(mem, addr, n).value;
    assert Readable(mem, addr + j, m) by {
      forall a | addr + j <= a < addr + j + m
        ensures a in mem
      {
        assert addr <= a < addr + n;
      }
    }
    var part := Read(mem, addr + j, m).value;
    assert |part| == |whole[j..j + m]|;
    forall i | 0 <= i < m
      ensures part[i] == whole[j..j + m][i]
    {
      assert part[i] == mem[addr + j + i];
      assert whole[j + i] == mem[addr + (j + i)];
    }
    assert part == whole[j..j + m];
  }
}
