/**
 * The header blocks of the request and of the response. Both are relayed
 * line by line, unchanged, up to the first empty line or the end of the
 * stream, and closed with one empty line. While relaying the request's
 * headers the relay also notes the last Content-Length value and whether
 * any Transfer-Encoding line mentions "chunked", and from these two it
 * picks how to copy the request body.
 */
module Headers {
  import opened Common
  import opened Text

  /**
   * A line reader over a stream of lines: the line at `pos`, or `None`
   * (null) once the stream has ended.
   */
  function ReadLine(lines: seq<string>, pos: nat): Option<string> {
    if pos < |lines| then Some(lines[pos]) else None
  }

  /** `string.IsNullOrEmpty`, with `None` for null. */
  predicate IsNullOrEmpty(line: Option<string>) {
    line.None? || line.value == ""
  }

  /** The number of header lines: the position of the first empty line, or all the lines. */
  function HeaderCount(lines: seq<string>): (k: nat)
    ensures k <= |lines|
    ensures forall j :: 0 <= j < k ==> lines[j] != ""
    ensures k < |lines| ==> lines[k] == ""
  {
    if |lines| == 0 || lines[0] == "" then 0 else 1 + HeaderCount(lines[1..])
  }

  /** The header lines that are relayed. */
  function HeaderBlock(lines: seq<string>): seq<string> {
    lines[..HeaderCount(lines)]
  }

  const ContentLengthName: string := "Content-Length:"
  const TransferEncodingName: string := "Transfer-Encoding:"

  predicate IsContentLengthLine(line: string) {
    StartsWithIgnoreCase(line, ContentLengthName)
  }

  /** `int.TryParse(line.Substring(15).Trim(), out n)`: the parsed value, or 0 when parsing fails. */
  function ContentLengthValue(line: string, tryParse: string -> Option<Int32>): Int32
    requires IsContentLengthLine(line)
  {
    match tryParse(Trim(line[|ContentLengthName|..]))
    case Some(n) => n
    case None => 0
  }

  /** A Transfer-Encoding line whose lower-cased text mentions "chunked" anywhere. */
  predicate IsChunkedLine(line: string) {
    StartsWithIgnoreCase(line, TransferEncodingName) && Contains(ToLower(line), "chunked")
  }

  /** The value the header loop leaves in `contentLength`: each Content-Length line overwrites it. */
  function LastContentLength(headers: seq<string>, tryParse: string -> Option<Int32>): Int32
    decreases |headers|
  {
    if |headers| == 0 then 0
    else
      var last := headers[|headers| - 1];
      if IsContentLengthLine(last) then ContentLengthValue(last, tryParse)
      else LastContentLength(headers[..|headers| - 1], tryParse)
  }

  /** Some header line is a chunked Transfer-Encoding line. */
  predicate AnyChunked(headers: seq<string>) {
    exists j | 0 <= j < |headers| :: IsChunkedLine(headers[j])
  }

  /** How the request body is copied. */
  datatype BodyFraming = NoBody | FixedLength(length: int) | Chunked

  /** A positive length is tried first, then chunked; otherwise there is no body. */
  function SelectFraming(contentLength: Int32, isChunked: bool): BodyFraming {
    if contentLength > 0 then FixedLength(contentLength)
    else if isChunked then Chunked
    else NoBody
  }

  /** The framing chosen for a request with these header lines. */
  function RequestFraming(headers: seq<string>, tryParse: string -> Option<Int32>): BodyFraming {
    SelectFraming(LastContentLength(headers, tryParse), AnyChunked(headers))
  }

  /**
   * The request header loop: reads lines until an empty one or the end of
   * the stream, forwards each as read, records the last Content-Length
   * value and whether a chunked Transfer-Encoding line was seen, and ends
   * the forwarded block with one empty line.
   */
  method ScanRequestHeaders(lines: seq<string>, tryParse: string -> Option<Int32>)
    returns (forwarded: seq<string>, contentLength: Int32, isChunked: bool)
    ensures forwarded == HeaderBlock(lines) + [""]
    ensures contentLength == LastContentLength(HeaderBlock(lines), tryParse)
    ensures isChunked == AnyChunked(HeaderBlock(lines))
  {
    forwarded, contentLength, isChunked := [], 0, false;
    var pos := 0;
    while true
      invariant pos <= |lines|
      invariant forwarded == lines[..pos]
      invariant forall j :: 0 <= j < pos ==> lines[j] != ""
      invariant contentLength == LastContentLength(forwarded, tryParse)
      invariant isChunked == AnyChunked(forwarded)
      decreases |lines| - pos
    {
      var line := ReadLine(lines, pos);
      if IsNullOrEmpty(line) {
        break;
      }
      pos := pos + 1;
      LastContentLengthSnoc(forwarded, line.value, tryParse);
      AnyChunkedSnoc(forwarded, line.value);
      if IsContentLengthLine(line.value) {
        contentLength := ContentLengthValue(line.value, tryParse);
      }
      if IsChunkedLine(line.value) {
        isChunked := true;
      }
      forwarded := forwarded + [line.value];
    }
    HeaderBlockIsLongestPrefix(lines, pos);
    forwarded := forwarded + [""];
  }

  /**
   * The response header loop: the same relay of lines up to an empty line
   * or the end of the stream, then one empty line, without inspecting them.
   */
  method RelayHeaders(lines: seq<string>) returns (forwarded: seq<string>)
    ensures forwarded == HeaderBlock(lines) + [""]
  {
    forwarded := [];
    var pos := 0;
    while true
      invariant pos <= |lines|
      invariant forwarded == lines[..pos]
      invariant forall j :: 0 <= j < pos ==> lines[j] != ""
      decreases |lines| - pos
    {
      var line := ReadLine(lines, pos);
      if IsNullOrEmpty(line) {
        break;
      }
      pos := pos + 1;
      forwarded := forwarded + [line.value];
    }
    HeaderBlockIsLongestPrefix(lines, pos);
    forwarded := forwarded + [""];
  }

  lemma LastContentLengthSnoc(headers: seq<string>, line: string, tryParse: string -> Option<Int32>)
    ensures LastContentLength(headers + [line], tryParse)
      == if IsContentLengthLine(line) then ContentLengthValue(line, tryParse) else LastContentLength(headers, tryParse)
  {
    assert (headers + [line])[..|headers|] == headers;
  }

  lemma AnyChunkedSnoc(headers: seq<string>, line: string)
    ensures AnyChunked(headers + [line]) == (AnyChunked(headers) || IsChunkedLine(line))
  {
    var more := headers + [line];
    if AnyChunked(headers) {
      var j :| 0 <= j < |headers| && IsChunkedLine(headers[j]);
      assert more[j] == headers[j];
    }
    if IsChunkedLine(line) {
      assert more[|headers|] == line;
    }
  }

  /**
   * The relayed block is the longest prefix of the stream without an empty
   * line: it is followed by an empty line unless it is all of the stream.
   */
  lemma {:induction false} HeaderBlockIsLongestPrefix(lines: seq<string>, k: nat)
    requires k <= |lines|
    requires forall j :: 0 <= j < k ==> lines[j] != ""
    requires k < |lines| ==> lines[k] == ""
    ensures HeaderBlock(lines) == lines[..k]
  {
  }

  /** The last Content-Length line decides the value, whatever came before it. */
  lemma {:induction false} LastContentLengthIsLastLine(headers: seq<string>, tryParse: string -> Option<Int32>, k: nat)
    requires k < |headers| && IsContentLengthLine(headers[k])
    requires forall j :: k < j < |headers| ==> !IsContentLengthLine(headers[j])
    ensures LastContentLength(headers, tryParse) == ContentLengthValue(headers[k], tryParse)
    decreases |headers|
  {
    if k < |headers| - 1 {
      var init := headers[..|headers| - 1];
      assert init[k] == headers[k];
      forall j | k < j < |init| ensures !IsContentLengthLine(init[j]) {
        assert init[j] == headers[j];
      }
      LastContentLengthIsLastLine(init, tryParse, k);
    }
  }

  /** Without a Content-Length line the value stays 0. */
  lemma {:induction false} LastContentLengthWithoutLine(headers: seq<string>, tryParse: string -> Option<Int32>)
    requires forall j :: 0 <= j < |headers| ==> !IsContentLengthLine(headers[j])
    ensures LastContentLength(headers, tryParse) == 0
    decreases |headers|
  {
    if |headers| > 0 {
      var init := headers[..|headers| - 1];
      assert !IsContentLengthLine(headers[|headers| - 1]);
      forall j | 0 <= j < |init| ensures !IsContentLengthLine(init[j]) {
        assert init[j] == headers[j];
      }
      LastContentLengthWithoutLine(init, tryParse);
    }
  }

  /**
   * A last Content-Length line that parses to a positive number selects a
   * fixed-length copy of that many bytes, even when a chunked
   * Transfer-Encoding line is present too.
   */
  lemma PositiveContentLengthWins(headers: seq<string>, tryParse: string -> Option<Int32>, k: nat)
    requires k < |headers| && IsContentLengthLine(headers[k])
    requires forall j :: k < j < |headers| ==> !IsContentLengthLine(headers[j])
    requires tryParse(Trim(headers[k][|ContentLengthName|..])).Some?
    requires tryParse(Trim(headers[k][|ContentLengthName|..])).value > 0
    ensures RequestFraming(headers, tryParse)
      == FixedLength(tryParse(Trim(headers[k][|ContentLengthName|..])).value)
  {
    LastContentLengthIsLastLine(headers, tryParse, k);
  }

  /**
   * When every Content-Length line is unparsable, zero or negative, no
   * fixed-length copy happens: the body is chunked exactly when a chunked
   * Transfer-Encoding line is present, and absent otherwise.
   */
  lemma {:induction false} NoPositiveLengthNeverFixed(headers: seq<string>, tryParse: string -> Option<Int32>)
    requires forall j :: 0 <= j < |headers| && IsContentLengthLine(headers[j]) ==>
      ContentLengthValue(headers[j], tryParse) <= 0
    ensures RequestFraming(headers, tryParse) == if AnyChunked(headers) then Chunked else NoBody
  {
    NonPositiveLast(headers, tryParse);
  }

  lemma {:induction false} NonPositiveLast(headers: seq<string>, tryParse: string -> Option<Int32>)
    requires forall j :: 0 <= j < |headers| && IsContentLengthLine(headers[j]) ==>
      ContentLengthValue(headers[j], tryParse) <= 0
    ensures LastContentLength(headers, tryParse) <= 0
    decreases |headers|
  {
    if |headers| > 0 {
      var init := headers[..|headers| - 1];
      forall j | 0 <= j < |init| && IsContentLengthLine(init[j])
        ensures ContentLengthValue(init[j], tryParse) <= 0
      {
        assert init[j] == headers[j];
      }
      NonPositiveLast(init, tryParse);
    }
  }
}
