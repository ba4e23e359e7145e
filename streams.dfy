/**
 * A byte stream as the relay sees it through `Stream.ReadAsync`.
 *
 * The bytes a peer sends arrive as a sequence of non-empty segments. A read
 * with room for `count` bytes returns at most `count` bytes of the segment at
 * the head of the stream, and returns nothing only when the peer has closed
 * its side (no segment is left) or `count` is zero. Any sequence of results a
 * real read can produce is one of these: take the segments to be exactly the
 * byte runs that the reads returned.
 */
module Streams {
  import opened Common

  /** What one receive delivers: at least one byte. */
  type Segment = s: seq<byte> | |s| > 0 witness [0]

  /** Size of the buffer the relay allocates for each body copy. */
  const BufferSize: nat := 8192

  /** The bytes still to come on the stream. */
  function Pending(stream: seq<Segment>): seq<byte> {
    Flatten(stream)
  }

  /** One read with room for `count` bytes: the bytes returned and the stream left over. */
  function ReadChunk(stream: seq<Segment>, count: nat): (r: (seq<byte>, seq<Segment>))
    ensures |r.0| <= count
    ensures r.0 + Pending(r.1) == Pending(stream)
    ensures |r.0| == 0 <==> |stream| == 0 || count == 0
    ensures |r.0| == 0 ==> r.1 == stream
  {
    if |stream| == 0 || count == 0 then ([], stream)
    else if |stream[0]| <= count then (stream[0], stream[1..])
    else
      var head: Segment := stream[0][count..];
      assert stream[0] == stream[0][..count] + head;
      (stream[0][..count], [head] + stream[1..])
  }

  /** No segment is left exactly when no byte is left. */
  lemma PendingEmpty(stream: seq<Segment>)
    ensures |Pending(stream)| == 0 <==> |stream| == 0
  {
    if |stream| > 0 {
      assert |Pending(stream)| >= |stream[0]|;
    }
  }

  /**
   * `input.ReadAsync(buffer, 0, count)`: fills `buffer[0..n)` with the bytes
   * the read returns and leaves the rest of the buffer alone.
   */
  method Read(stream: seq<Segment>, buffer: array<byte>, count: nat) returns (n: nat, rest: seq<Segment>)
    requires count <= buffer.Length
    modifies buffer
    ensures n <= count
    ensures buffer[..n] == ReadChunk(stream, count).0
    ensures rest == ReadChunk(stream, count).1
    ensures buffer[n..] == old(buffer[n..])
  {
    var got: seq<byte>;
    got, rest := ReadChunk(stream, count).0, ReadChunk(stream, count).1;
    n := |got|;
    forall i | 0 <= i < n {
      buffer[i] := got[i];
    }
  }
}
