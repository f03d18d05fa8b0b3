/**
 * The one descriptor on `/proc/<pid>/mem` that `scan` and `filter` open
 * and hand to every task they queue. `lseek` sets the descriptor's offset
 * and `read` reads at that offset, so a task's seek and its read are two
 * steps on shared state. The rest of the model takes them as one step
 * (`MemIO.Read`).
 */
module SharedOffset {
  import opened Wrappers
  import opened ByteBlocks
  import opened MemIO

  /** An open descriptor, known by its file offset. */
  datatype Fd = Fd(offset: Address)

  /** `lseek(fd, a, SEEK_SET)`: the offset becomes `a`. */
  function Seek(fd: Fd, a: Address): (r: Fd)
    ensures r.offset == a
  {
    Fd(a)
  }

  /**
   * `read(fd, buf, n)`: the `n` bytes at the descriptor's offset, which then
   * moves past them; when a byte there is unmapped, nothing, and the offset
   * stays.
   */
  function ReadFd(mem: Memory, fd: Fd, n: nat): (r: (Option<seq<byte>>, Fd))
    ensures r.0.Some? <==> Readable(mem, fd.offset, n)
    ensures r.0.Some? ==> |r.0.value| == n && forall i :: 0 <= i < n ==> r.0.value[i] == mem[fd.offset + i]
    ensures r.1.offset == if r.0.Some? then fd.offset + n else fd.offset
  {
    var bytes := Read(mem, fd.offset, n);
    (bytes, if bytes.Some? then Fd(fd.offset + n) else fd)
  }

  /**
   * A seek and its read with no other task's seek between them, as under a
   * lock: the bytes at the address sought, whatever the offset was before.
   * This is the step `MemIO.Read` stands for.
   */
  function SeekRead(mem: Memory, fd: Fd, a: Address, n: nat): (r: (Option<seq<byte>>, Fd))
    ensures r.0 == Read(mem, a, n)
    ensures r.0.Some? ==> r.1.offset == a + n
  {
    ReadFd(mem, Seek(fd, a), n)
  }

  /**
   * Two tasks on the shared descriptor: the first seeks to `x`, the second
   * seeks to `y`, then the first reads. The first task gets the bytes at `y`.
   * With one mapped byte 0 at address 0 and byte 1 at address 1, the task
   * that sought 0 reads the 1 stored at address 1.
   */
  lemma RacySeekReadsOtherAddress(mem: Memory, fd: Fd, x: Address, y: Address, n: nat)
    ensures ReadFd(mem, Seek(Seek(fd, x), y), n).0 == Read(mem, y, n)
    ensures ReadFd(map[0 := 0, 1 := 1], Seek(Seek(fd, 0), 1), 1).0 == Some([1])
    ensures Read(map[0 := 0, 1 := 1], 0, 1) == Some([0])
  {
    var two: Memory := map[0 := 0, 1 := 1];
    var got, want := Read(two, 1, 1), Read(two, 0, 1);
    assert Readable(two, 1, 1) && Readable(two, 0, 1);
    assert got.value[0] == 1 && want.value[0] == 0;
    assert got.value == [1] && want.value == [0];
  }
}
