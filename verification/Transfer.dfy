/** What a transfer between EC memory and a host buffer has achieved. */
module Transfer {
  import opened Bytes
  import opened LpcController

  datatype Direction = Write | Read

  /** The first `n` bytes have been moved, and nothing else. */
  ghost predicate Copied(direction: Direction, from: seq<byte>, was: seq<byte>, memory: seq<byte>, data: seq<byte>,
                         address: nat, start: nat, n: int) {
    && 0 <= n && |memory| == |from| && |data| == |was|
    && address + n <= |from| && start + n <= |was|
    && (direction.Write? ==>
          && data == was
          && forall k :: 0 <= k < |from| ==>
               memory[k] == if address <= k < address + n then was[start + (k - address)] else from[k])
    && (direction.Read? ==>
          && memory == from
          && forall k :: 0 <= k < |was| ==>
               data[k] == if start <= k < start + n then from[address + (k - start)] else was[k])
  }

  lemma CopiedLengths(direction: Direction, from: seq<byte>, was: seq<byte>, memory: seq<byte>, data: seq<byte>,
                      address: nat, start: nat, n: int)
    requires Copied(direction, from, was, memory, data, address, start, n)
    ensures |memory| == |from| && |data| == |was|
  {
  }

  /** `d` bytes more. */
  lemma CopiedMore(direction: Direction, from: seq<byte>, was: seq<byte>, memory: seq<byte>, data: seq<byte>,
                   memory': seq<byte>, data': seq<byte>, address: nat, start: nat, n: nat, d: nat)
    requires Copied(direction, from, was, memory, data, address, start, n)
    requires address + n + d <= |from| && start + n + d <= |was|
    requires if direction.Write?
             then memory' == Splice(memory, address + n, data[start + n..start + n + d]) && data' == data
             else memory' == memory && data' == Splice(data, start + n, memory[address + n..address + n + d])
    ensures Copied(direction, from, was, memory', data', address, start, n + d)
  {
  }

  lemma CopiedAll(direction: Direction, from: seq<byte>, was: seq<byte>, memory: seq<byte>, data: seq<byte>,
                  address: nat, start: nat, n: nat)
    requires Copied(direction, from, was, memory, data, address, start, n)
    ensures direction.Write? ==> memory == Splice(from, address, data[start..start + n]) && data == was
    ensures direction.Read? ==> data == Splice(was, start, memory[address..address + n]) && memory == from
  {
  }

  /** The first `n` bytes of the buffer are the memory at `offset`, the others are untouched. */
  ghost predicate Fetched(memory: Memory, offset: nat, was: seq<byte>, buffer: seq<byte>, n: nat) {
    && |buffer| == |was|
    && n <= |was|
    && (n > 0 ==> 0x100 + offset + n <= |memory|)
    && forall k :: 0 <= k < |was| ==> buffer[k] == if k < n then memory[0x100 + offset + k] else was[k]
  }
}
