/** The fixed receive buffer both incremental parsers own, with its two
    cursors: bytes before `parserIdx` are consumed, bytes from `parserIdx`
    to `bufferSize` are waiting to be parsed. */
module InputBuffers {
  import opened Text
  import opened HttpConst

  class InputBuffer {
    /** `char buffer[MAX_HTTP_BUFFER_LENGTH]`. */
    const buffer: array<Byte>
    /** `std::uint32_t buffer_size`. */
    var bufferSize: nat
    /** `std::uint32_t parser_idx`. */
    var parserIdx: nat

    /** The cursors stay in order and the buffer is never full: an append
        that would fill it is refused. */
    ghost predicate Valid()
      reads this
    {
      buffer.Length == MAX_HTTP_BUFFER_LENGTH && parserIdx <= bufferSize < MAX_HTTP_BUFFER_LENGTH
    }

    /** The unconsumed bytes. */
    function Pending(): (r: seq<Byte>)
      reads this, buffer
      requires Valid()
      ensures |r| == bufferSize - parserIdx
    {
      buffer[parserIdx..bufferSize]
    }

    /** The fill level once `append_input` has compacted (it compacts when
        half the buffer or more is consumed). */
    function CompactedSize(): (n: nat)
      reads this
      requires Valid()
      ensures n <= bufferSize
      ensures n >= bufferSize - parserIdx
    {
      if parserIdx >= MAX_HTTP_BUFFER_LENGTH / 2 then bufferSize - parserIdx else bufferSize
    }

    /** Both parsers' constructors: an empty buffer. */
    constructor ()
      ensures Valid() && fresh(buffer)
      ensures parserIdx == 0 && bufferSize == 0 && Pending() == []
    {
      buffer := new Byte[MAX_HTTP_BUFFER_LENGTH];
      bufferSize := 0;
      parserIdx := 0;
    }

    /** `std::copy(buffer + parser_idx, buffer + buffer_size, buffer)`:
        moves the unconsumed bytes to the front. The copy runs forward, so
        every byte is read before the write that could overwrite it. */
    method Compact()
      requires Valid()
      modifies this, buffer
      ensures Valid() && parserIdx == 0 && bufferSize == old(bufferSize - parserIdx)
      ensures Pending() == old(Pending())
    {
      ghost var before := buffer[..];
      var p := parserIdx;
      var n := bufferSize - parserIdx;
      var k := 0;
      while k < n
        invariant 0 <= k <= n && p + n == bufferSize
        invariant forall j :: 0 <= j < k ==> buffer[j] == before[p + j]
        invariant forall j :: k + p <= j < p + n ==> buffer[j] == before[j]
      {
        buffer[k] := buffer[p + k];
        k := k + 1;
      }
      bufferSize := n;
      parserIdx := 0;
      assert Pending() == before[p..p + n];
    }

    /** `std::copy(in_bytes, in_bytes + length, buffer + buffer_size)`
        and the new fill level. */
    method CopyIn(input: seq<Byte>)
      requires Valid() && |input| + bufferSize < MAX_HTTP_BUFFER_LENGTH
      modifies this, buffer
      ensures Valid() && parserIdx == old(parserIdx) && bufferSize == old(bufferSize) + |input|
      ensures Pending() == old(Pending()) + input
    {
      ghost var before, idx := buffer[..], parserIdx;
      var start := bufferSize;
      var k := 0;
      while k < |input|
        invariant 0 <= k <= |input| && bufferSize == start && parserIdx == idx
        invariant forall j :: 0 <= j < start ==> buffer[j] == before[j]
        invariant forall j :: 0 <= j < k ==> buffer[start + j] == input[j]
      {
        buffer[start + k] := input[k];
        k := k + 1;
      }
      bufferSize := start + |input|;
      assert Pending() == before[parserIdx..start] + input;
    }

    /** `append_input(in_bytes, length)`: compacts first if half the
        buffer is consumed, then refuses the bytes if they would fill the
        buffer; otherwise copies them in after the unconsumed ones. */
    method Append(input: seq<Byte>) returns (ok: bool)
      requires Valid()
      modifies this, buffer
      ensures Valid()
      ensures ok <==> |input| + old(CompactedSize()) < MAX_HTTP_BUFFER_LENGTH
      ensures parserIdx == if old(parserIdx) >= MAX_HTTP_BUFFER_LENGTH / 2 then 0 else old(parserIdx)
      ensures bufferSize == old(CompactedSize()) + if ok then |input| else 0
      ensures Pending() == old(Pending()) + if ok then input else []
    {
      if parserIdx >= MAX_HTTP_BUFFER_LENGTH / 2 {
        Compact();
      }
      if |input| + bufferSize >= MAX_HTTP_BUFFER_LENGTH {
        return false;
      }
      CopyIn(input);
      return true;
    }
  }

  /** Cutting the unconsumed bytes at `n`: the front is what a view of the
      buffer from the cursor holds, and the back is what is left once the
      cursor moves by `n`. */
  lemma SplitPending(b: seq<Byte>, lo: nat, hi: nat, n: nat)
    requires lo + n <= hi <= |b|
    ensures b[lo..hi][..n] == b[lo..lo + n] && b[lo..hi][n..] == b[lo + n..hi]
  {
  }
}
