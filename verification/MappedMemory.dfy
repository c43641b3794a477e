/** What reading the EC's mapped memory returns, independent of the backend. */
module MappedMemory {
  import opened LpcController

  /** Bytes up to and including the first NUL from `off` on, or up to the end of the area. */
  function StringLength(memory: Memory, off: nat): (n: nat)
    ensures off + n <= MEMMAP_SIZE || n == 0
    decreases MEMMAP_SIZE - off
  {
    if off >= MEMMAP_SIZE then 0
    else if memory[MEMMAP_BASE + off] == 0 then 1
    else 1 + StringLength(memory, off + 1)
  }

  /** The count returned by a read; length 0 asks for a string. */
  function ReadCount(memory: Memory, offset: nat, length: nat): (n: int) {
    if offset + length > MEMMAP_SIZE then -1
    else if length > 0 then length
    else StringLength(memory, offset)
  }

  /** A read beyond the 255 bytes of the area is refused; one of some length is answered in full;
      and a string has at least one byte, unless it starts at the end of the area. */
  lemma ReadCountMeans(memory: Memory, offset: nat, length: nat)
    ensures var n := ReadCount(memory, offset, length);
            && (n == -1 <==> offset + length > 255)
            && (n != -1 && length > 0 ==> n == length)
            && (n == 0 <==> offset == 255 && length == 0)
  {
    if length == 0 && offset < 255 {
      StringLengthFindsNul(memory, offset);
    }
  }

  /** The string ends at its first NUL, or at the end of the area if there is none. */
  lemma {:induction false} StringLengthFindsNul(memory: Memory, off: nat)
    requires off < MEMMAP_SIZE
    ensures var end := 0x100 + off + StringLength(memory, off);
            && 0x100 + off < end <= 0x1FF
            && (forall a :: 0x100 + off <= a < end - 1 ==> memory[a] != 0)
            && (memory[end - 1] == 0 || end == 0x1FF)
    decreases MEMMAP_SIZE - off
  {
    if memory[MEMMAP_BASE + off] != 0 && off + 1 < MEMMAP_SIZE {
      StringLengthFindsNul(memory, off + 1);
    }
  }
}
