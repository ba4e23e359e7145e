/**
 * The two ways the relay copies a request body from the client to the
 * origin, both through one reused 8192-byte buffer:
 *   - a fixed-length copy of Content-Length bytes, which stops quietly when
 *     the client closes early;
 *   - a "chunked" copy that does not decode chunks (section 7.1 of RFC 9112)
 *     but copies whole reads and stops after the first read whose bytes hold
 *     "0\r\n\r\n".
 * Each copy yields the sequence of writes it makes to the origin and the
 * part of the client's stream it leaves unread.
 */
module BodyTransfer {
  import opened Common
  import opened Streams

  /** The ASCII bytes of "0\r\n\r\n": a last-chunk line followed by the empty line. */
  const Terminator: seq<byte> := [0x30, 0x0D, 0x0A, 0x0D, 0x0A]

  predicate HasTerminator(bytes: seq<byte>) {
    Contains(bytes, Terminator)
  }

  /**
   * The writes of the fixed-length copy with `remaining` bytes still to go:
   * read at most min(8192, remaining) bytes, stop on a read of nothing,
   * otherwise write what was read and go on with the rest.
   */
  function FixedCopy(stream: seq<Segment>, remaining: int): (seq<seq<byte>>, seq<Segment>)
    decreases Max(remaining, 0)
  {
    if remaining <= 0 then ([], stream)
    else
      var (got, rest) := ReadChunk(stream, Min(BufferSize, remaining));
      if |got| == 0 then ([], rest)
      else
        var (writes, left) := FixedCopy(rest, remaining - |got|);
        ([got] + writes, left)
  }

  /** The fixed-length copy loses and adds no byte. */
  lemma {:induction false} FixedCopyConserves(stream: seq<Segment>, remaining: int)
    ensures Flatten(FixedCopy(stream, remaining).0) + Pending(FixedCopy(stream, remaining).1) == Pending(stream)
    decreases Max(remaining, 0)
  {
    if remaining > 0 {
      var (got, rest) := ReadChunk(stream, Min(BufferSize, remaining));
      if |got| > 0 {
        FixedCopyConserves(rest, remaining - |got|);
        var (writes, left) := FixedCopy(rest, remaining - |got|);
        assert FixedCopy(stream, remaining) == ([got] + writes, left);
        assert ([got] + writes)[1..] == writes;
        assert got + Flatten(writes) + Pending(left) == got + (Flatten(writes) + Pending(left));
      }
    }
  }

  /** No write of the fixed-length copy is empty or larger than the buffer. */
  lemma {:induction false} FixedCopyWriteSizes(stream: seq<Segment>, remaining: int)
    ensures forall i :: 0 <= i < |FixedCopy(stream, remaining).0| ==> 0 < |FixedCopy(stream, remaining).0[i]| <= BufferSize
    decreases Max(remaining, 0)
  {
    if remaining > 0 {
      var (got, rest) := ReadChunk(stream, Min(BufferSize, remaining));
      if |got| > 0 {
        FixedCopyWriteSizes(rest, remaining - |got|);
        var writes := FixedCopy(rest, remaining - |got|).0;
        assert FixedCopy(stream, remaining).0 == [got] + writes;
        assert |got| <= BufferSize;
        forall i | 0 <= i < |[got] + writes| ensures 0 < |([got] + writes)[i]| <= BufferSize {
          if i > 0 {
            assert ([got] + writes)[i] == writes[i - 1];
            assert 0 < |writes[i - 1]| <= BufferSize;
          } else {
            assert ([got] + writes)[i] == got;
          }
        }
      } else {
        assert FixedCopy(stream, remaining).0 == [];
      }
    }
  }

  /** The fixed-length copy writes min(remaining, available) bytes in all. */
  lemma {:induction false} FixedCopyLength(stream: seq<Segment>, remaining: int)
    ensures |Flatten(FixedCopy(stream, remaining).0)| == Min(Max(remaining, 0), |Pending(stream)|)
    decreases Max(remaining, 0)
  {
    if remaining > 0 {
      var (got, rest) := ReadChunk(stream, Min(BufferSize, remaining));
      if |got| == 0 {
        PendingEmpty(stream);
      } else {
        FixedCopyLength(rest, remaining - |got|);
        var writes := FixedCopy(rest, remaining - |got|).0;
        assert FixedCopy(stream, remaining).0 == [got] + writes;
        assert ([got] + writes)[1..] == writes;
        assert |Flatten([got] + writes)| == |got| + |Flatten(writes)|;
        assert |Pending(stream)| == |got| + |Pending(rest)|;
      }
    }
  }

  /**
   * `CopyContentAsync(input, output, contentLength)`. The bytes written are
   * the first `contentLength` bytes of the stream, or all of it when the
   * client closes sooner, and what is left unread is the rest of the
   * stream; no write is empty or larger than the buffer. A length of zero
   * or less copies nothing.
   */
  method CopyContent(input: seq<Segment>, contentLength: Int32) returns (writes: seq<seq<byte>>, rest: seq<Segment>)
    ensures (writes, rest) == FixedCopy(input, contentLength)
    ensures Flatten(writes) == Pending(input)[..Min(Max(contentLength, 0), |Pending(input)|)]
    ensures Flatten(writes) + Pending(rest) == Pending(input)
    ensures forall i :: 0 <= i < |writes| ==> 0 < |writes[i]| <= BufferSize
  {
    var buffer := new byte[BufferSize];
    var remaining: int := contentLength;
    writes, rest := [], input;
    AfterNothing(FixedCopy(rest, remaining));
    while remaining > 0
      invariant FixedCopy(input, contentLength) == After(writes, FixedCopy(rest, remaining))
      decreases remaining
    {
      var n, left := Read(rest, buffer, Min(buffer.Length, remaining));
      var got := buffer[..n];
      FixedCopyAdvance(writes, rest, remaining, got, left);
      if n == 0 {
        rest := left;
        break;
      }
      writes, rest := writes + [got], left;
      remaining := remaining - n;
    }
    AfterWrites(writes, FixedCopy(rest, remaining));
    FixedCopyIsPrefix(input, contentLength);
    FixedCopyConserves(input, contentLength);
    FixedCopyWriteSizes(input, contentLength);
  }

  /** How one read moves the fixed-length copy on: it stops on a read of nothing, and otherwise writes what it read. */
  lemma FixedCopyAdvance(writes: seq<seq<byte>>, stream: seq<Segment>, remaining: int, got: seq<byte>, left: seq<Segment>)
    requires remaining > 0
    requires (got, left) == ReadChunk(stream, Min(BufferSize, remaining))
    ensures |got| == 0 ==> After(writes, FixedCopy(stream, remaining)) == (writes, left)
    ensures |got| > 0 ==>
      After(writes, FixedCopy(stream, remaining)) == After(writes + [got], FixedCopy(left, remaining - |got|))
  {
    if |got| == 0 {
      AfterWrites(writes, ([], left));
    } else {
      AfterStep(writes, got, FixedCopy(left, remaining - |got|));
    }
  }

  /** The fixed-length copy writes a prefix of the stream: its first `remaining` bytes, or all of it. */
  lemma FixedCopyIsPrefix(stream: seq<Segment>, remaining: int)
    ensures Flatten(FixedCopy(stream, remaining).0) == Pending(stream)[..Min(Max(remaining, 0), |Pending(stream)|)]
  {
    FixedCopyConserves(stream, remaining);
    FixedCopyLength(stream, remaining);
    var total := Flatten(FixedCopy(stream, remaining).0);
    assert total + Pending(FixedCopy(stream, remaining).1) == Pending(stream);
    assert total == Pending(stream)[..|total|];
  }

  /** The result of a copy that has already made `writes` and then goes on with `next`. */
  function After(writes: seq<seq<byte>>, next: (seq<seq<byte>>, seq<Segment>)): (seq<seq<byte>>, seq<Segment>) {
    (writes + next.0, next.1)
  }

  lemma AfterWrites(writes: seq<seq<byte>>, next: (seq<seq<byte>>, seq<Segment>))
    ensures next.0 == [] ==> After(writes, next) == (writes, next.1)
  {
    if next.0 == [] {
      assert writes + [] == writes;
    }
  }

  lemma AfterNothing(next: (seq<seq<byte>>, seq<Segment>))
    ensures After([], next) == next
  {
    assert [] + next.0 == next.0;
  }

  lemma AfterStep(writes: seq<seq<byte>>, got: seq<byte>, next: (seq<seq<byte>>, seq<Segment>))
    ensures After(writes, ([got] + next.0, next.1)) == After(writes + [got], next)
  {
    assert writes + ([got] + next.0) == (writes + [got]) + next.0;
  }

  /** A client that closes before `remaining` bytes is copied to its end, and nothing is left. */
  lemma FixedCopyTruncated(stream: seq<Segment>, remaining: int)
    requires |Pending(stream)| < remaining
    ensures Flatten(FixedCopy(stream, remaining).0) == Pending(stream)
    ensures FixedCopy(stream, remaining).1 == []
  {
    FixedCopyConserves(stream, remaining);
    FixedCopyLength(stream, remaining);
    PendingEmpty(FixedCopy(stream, remaining).1);
  }

  /** Every read of the chunked copy, up to the end of the stream. */
  function Reads(stream: seq<Segment>): (rs: seq<seq<byte>>)
    ensures Flatten(rs) == Pending(stream)
    ensures forall i :: 0 <= i < |rs| ==> 0 < |rs[i]| <= BufferSize
    decreases |Pending(stream)|
  {
    var (got, rest) := ReadChunk(stream, BufferSize);
    if |got| == 0 then []
    else
      assert ([got] + Reads(rest))[1..] == Reads(rest);
      [got] + Reads(rest)
  }

  /**
   * The writes of `TransferChunkedAsync`: read up to 8192 bytes, stop on a
   * read of nothing, otherwise write them and stop if they hold the
   * terminator.
   */
  function ChunkedCopy(stream: seq<Segment>): (r: (seq<seq<byte>>, seq<Segment>))
    ensures Flatten(r.0) + Pending(r.1) == Pending(stream)
    ensures forall i :: 0 <= i < |r.0| - 1 ==> !HasTerminator(r.0[i])
    ensures |r.1| > 0 ==> |r.0| > 0 && HasTerminator(r.0[|r.0| - 1])
    decreases |Pending(stream)|
  {
    var (got, rest) := ReadChunk(stream, BufferSize);
    if |got| == 0 then ([], rest)
    else if HasTerminator(got) then ([got], rest)
    else
      var (writes, left) := ChunkedCopy(rest);
      assert ([got] + writes)[1..] == writes;
      ([got] + writes, left)
  }

  /**
   * `TransferChunkedAsync(input, output)`. The writes are the stream's
   * reads from the first on, and no byte is lost or added; every read but
   * the last lacks the terminator, and the copy stops early only after a
   * read that holds it.
   */
  method TransferChunked(input: seq<Segment>) returns (writes: seq<seq<byte>>, rest: seq<Segment>)
    ensures (writes, rest) == ChunkedCopy(input)
    ensures writes <= Reads(input)
    ensures Flatten(writes) + Pending(rest) == Pending(input)
    ensures forall i :: 0 <= i < |writes| - 1 ==> !HasTerminator(writes[i])
    ensures writes == Reads(input) || HasTerminator(writes[|writes| - 1])
  {
    var buffer := new byte[BufferSize];
    writes, rest := [], input;
    AfterNothing(ChunkedCopy(rest));
    while true
      invariant ChunkedCopy(input) == After(writes, ChunkedCopy(rest))
      decreases |Pending(rest)|
    {
      var n, left := Read(rest, buffer, buffer.Length);
      ChunkedCopyStep(rest);
      if n <= 0 {
        AfterWrites(writes, ([], left));
        rest := left;
        break;
      }
      var copied := buffer[..n];
      if HasTerminator(copied) {
        AfterWrites(writes + [copied], ([], left));
        AfterStep(writes, copied, ([], left));
        writes, rest := writes + [copied], left;
        break;
      }
      AfterStep(writes, copied, ChunkedCopy(left));
      writes, rest := writes + [copied], left;
    }
    ChunkedCopyOutcome(input);
  }

  /** One step of the chunked copy. */
  lemma ChunkedCopyStep(stream: seq<Segment>)
    ensures var (got, rest) := ReadChunk(stream, BufferSize);
      ChunkedCopy(stream)
        == if |got| == 0 then ([], rest)
           else if HasTerminator(got) then ([got], rest)
           else ([got] + ChunkedCopy(rest).0, ChunkedCopy(rest).1)
  {
  }

  /**
   * Normal case: the chunked copy writes exactly the reads up to and
   * including the first one whose bytes hold the terminator.
   */
  lemma {:induction false} ChunkedCopyStopsAtFirstTerminator(stream: seq<Segment>, k: nat)
    requires k < |Reads(stream)| && HasTerminator(Reads(stream)[k])
    requires forall i :: 0 <= i < k ==> !HasTerminator(Reads(stream)[i])
    ensures ChunkedCopy(stream).0 == Reads(stream)[..k + 1]
    decreases |Pending(stream)|
  {
    var (got, rest) := ReadChunk(stream, BufferSize);
    var rs := Reads(stream);
    assert rs == [got] + Reads(rest);
    if k > 0 {
      assert !HasTerminator(rs[0]);
      forall i | 0 <= i < k - 1 ensures !HasTerminator(Reads(rest)[i]) {
        assert Reads(rest)[i] == rs[i + 1];
      }
      assert Reads(rest)[k - 1] == rs[k];
      ChunkedCopyStopsAtFirstTerminator(rest, k - 1);
      assert rs[..k + 1] == [got] + Reads(rest)[..k];
    }
  }

  /** The chunked copy writes some of the reads, in order, from the first on. */
  lemma {:induction false} ChunkedCopyIsPrefixOfReads(stream: seq<Segment>)
    ensures ChunkedCopy(stream).0 <= Reads(stream)
    decreases |Pending(stream)|
  {
    var (got, rest) := ReadChunk(stream, BufferSize);
    ChunkedCopyStep(stream);
    if |got| > 0 {
      assert Reads(stream) == [got] + Reads(rest);
      if !HasTerminator(got) {
        ChunkedCopyIsPrefixOfReads(rest);
      }
    }
  }

  /**
   * The chunked copy writes the reads from the first on, and either all of
   * them or up to one that holds the terminator.
   */
  lemma ChunkedCopyOutcome(stream: seq<Segment>)
    ensures ChunkedCopy(stream).0 <= Reads(stream)
    ensures ChunkedCopy(stream).0 == Reads(stream) || HasTerminator(ChunkedCopy(stream).0[|ChunkedCopy(stream).0| - 1])
  {
    var r := ChunkedCopy(stream);
    ChunkedCopyIsPrefixOfReads(stream);
    if |r.1| == 0 {
      var allReads := Reads(stream);
      var unwritten := allReads[|r.0|..];
      assert allReads == r.0 + unwritten;
      FlattenConcat(r.0, unwritten);
      FlattenCovers(unwritten);
    }
  }

  /** A sequence of non-empty pieces flattens to at least one byte per piece. */
  lemma {:induction false} FlattenCovers(pieces: seq<seq<byte>>)
    requires forall i :: 0 <= i < |pieces| ==> |pieces[i]| > 0
    ensures |Flatten(pieces)| >= |pieces|
  {
    if |pieces| > 0 {
      FlattenCovers(pieces[1..]);
    }
  }

  /** When no read holds the terminator, the chunked copy copies the whole stream. */
  lemma {:induction false} ChunkedCopyWithoutTerminator(stream: seq<Segment>)
    requires forall i :: 0 <= i < |Reads(stream)| ==> !HasTerminator(Reads(stream)[i])
    ensures ChunkedCopy(stream) == (Reads(stream), [])
    decreases |Pending(stream)|
  {
    var (got, rest) := ReadChunk(stream, BufferSize);
    if |got| > 0 {
      var rs := Reads(stream);
      assert rs == [got] + Reads(rest);
      assert !HasTerminator(rs[0]);
      forall i | 0 <= i < |Reads(rest)| ensures !HasTerminator(Reads(rest)[i]) {
        assert Reads(rest)[i] == rs[i + 1];
      }
      ChunkedCopyWithoutTerminator(rest);
    }
  }

  /** When every segment fits in the buffer, each read returns one whole segment. */
  lemma {:induction false} ReadsOfSmallSegments(stream: seq<Segment>)
    requires forall i :: 0 <= i < |stream| ==> |stream[i]| <= BufferSize
    ensures Reads(stream) == stream
    decreases |stream|
  {
    if |stream| > 0 {
      ReadsOfSmallSegments(stream[1..]);
      PendingEmpty(stream);
    }
  }

  /**
   * A terminator split across two reads is not seen: the copy goes on past
   * it, here through the first byte of whatever the client sends next, to
   * the end of the stream.
   */
  lemma SplitTerminatorIsMissed()
    ensures var stream: seq<Segment> := [[0x30, 0x0D, 0x0A], [0x0D, 0x0A], [0x47]];
      && HasTerminator(Pending(stream))
      && ChunkedCopy(stream) == (stream, [])
  {
    var stream: seq<Segment> := [[0x30, 0x0D, 0x0A], [0x0D, 0x0A], [0x47]];
    assert Pending(stream) == [0x30, 0x0D, 0x0A, 0x0D, 0x0A, 0x47];
    assert OccursAt(Pending(stream), Terminator, 0);
    ReadsOfSmallSegments(stream);
    ChunkedCopyWithoutTerminator(stream);
  }

  /**
   * Chunk data can hold the terminator: a chunk of size 0x10 whose data
   * starts with CRLF stops the copy after its first read, and the rest of
   * the body is left unread.
   */
  lemma TerminatorInsideChunkStopsEarly()
    ensures var first: Segment := [0x31, 0x30, 0x0D, 0x0A, 0x0D, 0x0A];
      var more: Segment := [0x41];
      ChunkedCopy([first, more]) == ([first], [more])
  {
    var first: Segment := [0x31, 0x30, 0x0D, 0x0A, 0x0D, 0x0A];
    var more: Segment := [0x41];
    assert OccursAt(first, Terminator, 1);
    assert ReadChunk([first, more], BufferSize) == (first, [more]);
  }

  /** `Encoding.ASCII.GetString`: bytes above 0x7F become '?'. */
  function AsciiChar(b: byte): char {
    if b < 0x80 then (b as int) as char else '?'
  }

  function AsciiDecode(bytes: seq<byte>): (s: string)
    ensures |s| == |bytes| && forall i :: 0 <= i < |bytes| ==> s[i] == AsciiChar(bytes[i])
  {
    if |bytes| == 0 then [] else [AsciiChar(bytes[0])] + AsciiDecode(bytes[1..])
  }

  const TerminatorText: string := "0\r\n\r\n"

  /**
   * The relay searches the ASCII decoding of the bytes for "0\r\n\r\n";
   * this finds it exactly where the bytes hold the terminator.
   */
  lemma AsciiSearchAgrees(bytes: seq<byte>)
    ensures Contains(AsciiDecode(bytes), TerminatorText) <==> HasTerminator(bytes)
  {
    var text := AsciiDecode(bytes);
    forall i | 0 <= i <= |bytes| - 5
      ensures OccursAt(text, TerminatorText, i) <==> OccursAt(bytes, Terminator, i)
    {
      forall j | 0 <= j < 5 ensures (text[i + j] == TerminatorText[j]) <==> (bytes[i + j] == Terminator[j]) {
        assert TerminatorText[j] as int == Terminator[j] as int;
      }
      if OccursAt(text, TerminatorText, i) {
        forall j | 0 <= j < 5 ensures bytes[i + j] == Terminator[j] {
          assert text[i + j] == text[i..i + 5][j];
        }
        assert bytes[i..i + 5] == Terminator;
      }
      if OccursAt(bytes, Terminator, i) {
        forall j | 0 <= j < 5 ensures text[i + j] == TerminatorText[j] {
          assert bytes[i + j] == bytes[i..i + 5][j];
        }
        assert text[i..i + 5] == TerminatorText;
      }
    }
  }
}
