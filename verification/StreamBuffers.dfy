/** The FreeRTOS stream buffer: a bounded byte queue whose non-blocking send stores what fits. */
module StreamBuffers {
  import opened Common

  class StreamBuffer {
    const capacity: nat
    var contents: seq<byte>

    ghost predicate Valid()
      reads this
    {
      |contents| <= capacity
    }

    constructor (capacity: nat)
      ensures Valid() && contents == [] && this.capacity == capacity
    {
      this.capacity := capacity;
      contents := [];
    }

    method SpacesAvailable() returns (n: nat)
      requires Valid()
      ensures n == capacity - |contents|
    {
      n := capacity - |contents|;
    }

    method BytesAvailable() returns (n: nat)
      ensures n == |contents|
    {
      n := |contents|;
    }

    method Send(data: seq<byte>) returns (n: nat)
      requires Valid()
      modifies this`contents
      ensures Valid()
      ensures n == Min(|data|, capacity - old(|contents|))
      ensures contents == old(contents) + data[..n]
      ensures contents == Take(old(contents) + data, capacity)
    {
      n := Min(|data|, capacity - |contents|);
      contents := contents + data[..n];
    }

    /** Returns at most `n` bytes; none when the buffer stays empty until the timeout. */
    method Receive(n: nat) returns (data: seq<byte>)
      requires Valid()
      modifies this`contents
      ensures Valid()
      ensures data == Take(old(contents), n)
      ensures old(contents) == data + contents
    {
      data := Take(contents, n);
      contents := contents[|data|..];
    }
  }
}
