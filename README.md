# A verified model of a small HTTP/1.x forward proxy's connection relay

The proxy accepts a client connection. It reads one request line, checks
it, and rewrites its absolute `http` target to origin form (method, path
and query, version; section 3.2.1 of RFC 9112). Then it connects to the
target's host and port and forwards the request headers line by line. It
copies the request body either as a fixed number of bytes or with a
heuristic "chunked" copy. After that it relays the origin's status line,
the response headers and the raw rest of the response back to the client,
and logs the status field.

The model covers one connection of `HandleClientAsync` and the two body
copy routines `CopyContentAsync` and `TransferChunkedAsync`:

- `common.dfy` (module `Common`): options, results, bytes, 32-bit integers, concatenation and substring search.
- `streams.dfy` (module `Streams`): a byte stream as a sequence of non-empty segments. A read with room for `count` bytes returns at most `count` bytes of the head segment, and returns nothing only at the end of the stream. `Read` fills an `array` buffer in place, like `Stream.ReadAsync`, and is the only way the copy loops read.
- `text.dfy` (module `Text`): the .NET string operations used: `Split`, `Split` with a count, `Trim`, `ToLower`, ordinal case-insensitive `StartsWith`, `IsNullOrWhiteSpace`.
- `startline.dfy` (module `StartLine`): the request-line checks and rewrite, and the status field that is logged.
- `headers.dfy` (module `Headers`): the two header loops as methods with loop invariants. It also holds the Content-Length and Transfer-Encoding bookkeeping and the choice of body framing.
- `bodytransfer.dfy` (module `BodyTransfer`): the two body copies. Each is a loop method over a reused 8192-byte array, proved equal to a recursive specification function. The properties are lemmas about those functions.
- `relay.dfy` (module `Relay`): the whole connection. `Relay` is a function that specifies it, and `HandleClient` is the method proved equal to it.

Each peer is a stream of text lines plus a stream of body bytes. The
collaborators the relay cannot see are fields of `Environment`:

- `Uri.TryCreate`;
- `int.TryParse`;
- whether `ConnectAsync` succeeds;
- what the origin replies to the lines and bytes it received.

One write to the origin is one element of a sequence of byte sequences.

Where the code departs from HTTP/1.1 framing (section 6.3 of RFC 9112), the model follows the code:

- In `Proxy/Program.cs:64-67` the last Content-Length line overwrites the earlier ones.
- A value that does not parse counts as 0, and a zero or negative value copies no fixed-length body.
- A positive Content-Length is used even when a chunked Transfer-Encoding is present (`Proxy/Program.cs:79-82`).
- The request body is not dechunked. The chunked copy stops after the first read whose bytes hold `0\r\n\r\n`, so a terminator split across two reads is missed, and chunk data can stop the copy early.
- The response body is never framed. It is the whole rest of the origin's stream.

## Model

| member | source | states |
|---|---|---|
| StartLine.RequestLineRejections | Proxy/Program.cs:31-44 | Each rejection iff its own case. An empty or missing line gives EmptyRequestLine. Fewer than two spaces gives TooFewTokens. A second field that is not an absolute http URI gives NotAbsoluteHttp. |
| StartLine.RequestLineAccepted | Proxy/Program.cs:35-44 | An accepted line's method, target and version hold no space. The target parsed to an http URI. The line begins with the three fields joined by single spaces, and anything after them starts with a space and is ignored. |
| Relay.RejectedBeforeConnecting | Proxy/Program.cs:31-51 | Rejected iff the request line fails its checks, and for that reason. A rejected connection's outcome does not depend on reachability or on the origin's reply. An unreachable one does not depend on the reply. |
| Relay.RequestHeadForwarded | Proxy/Program.cs:39-76 | The origin connection goes to the URI's host, on port 80 when the URI has no explicit port. The first line sent is token 0, the path and query, and token 2, joined by spaces. Then come the client's header lines unchanged and in order, up to the first empty line or the end, then one empty line. |
| Relay.HandleClient | Proxy/Program.cs:23-105 | The connection handler's outcome equals the Relay specification: rejection, connection failure, or the full exchange. |
| Relay.RelayExchange | Proxy/Program.cs:57-103 | What is sent each way after connecting equals the Forward specification. |
| Relay.SendRequest | Proxy/Program.cs:57-82 | The lines sent are the origin-form line, the header block and an empty line. The body writes are the copy that the headers' framing selects. |
| Relay.ReceiveResponse | Proxy/Program.cs:85-100 | The log line and the lines sent to the client equal LogLine and ClientResponse of the origin's lines. |
| Headers.ScanRequestHeaders | Proxy/Program.cs:60-76 | The lines forwarded are the longest prefix without an empty line, then one empty line. contentLength is the value of the last Content-Length line (0 if none). isChunked holds iff some line is a chunked Transfer-Encoding line. |
| Headers.RelayHeaders | Proxy/Program.cs:96-100 | The response header lines are forwarded unchanged up to the first empty line or the end, then one empty line. |
| Headers.HeaderBlockIsLongestPrefix | Proxy/Program.cs:64 | The forwarded block is exactly the prefix that has no empty line and is followed by an empty line or the end of the stream. |
| Headers.LastContentLengthIsLastLine | Proxy/Program.cs:64-67 | The last Content-Length line decides the value, whatever earlier Content-Length lines say. |
| Headers.LastContentLengthWithoutLine | Proxy/Program.cs:61-67 | Without a Content-Length line the value stays 0. |
| Headers.PositiveContentLengthWins | Proxy/Program.cs:79-82 | A last Content-Length line that parses to a positive n selects a fixed-length copy of n bytes, even when a chunked Transfer-Encoding line is present. |
| Headers.NoPositiveLengthNeverFixed | Proxy/Program.cs:79-82 | When every Content-Length line is zero, negative or unparsable, there is no fixed-length copy. The copy is chunked iff a chunked line is present, otherwise there is no body. |
| BodyTransfer.CopyContent | Proxy/Program.cs:107-118 | The writes are the first min(contentLength, available) bytes of the input and lose nothing of it. Each write is 1 to 8192 bytes. The loop equals the FixedCopy specification. |
| BodyTransfer.FixedCopyConserves | Proxy/Program.cs:107-118 | The bytes written followed by the bytes left unread are exactly the input's bytes. |
| BodyTransfer.FixedCopyLength | Proxy/Program.cs:107-118 | The copy writes min(contentLength, available) bytes in total, and none for a non-positive length. |
| BodyTransfer.FixedCopyWriteSizes | Proxy/Program.cs:113-115 | No write is empty or longer than the 8192-byte buffer. |
| BodyTransfer.FixedCopyIsPrefix | Proxy/Program.cs:107-118 | The bytes written are the input's first min(contentLength, available) bytes. With at least contentLength bytes available, that is exactly contentLength bytes. |
| BodyTransfer.FixedCopyTruncated | Proxy/Program.cs:111-114 | A client that closes early has all of its bytes copied and nothing left unread, with no error. |
| BodyTransfer.TransferChunked | Proxy/Program.cs:120-130 | The writes are the input's reads from the first on, and no byte is lost or added. No write before the last holds the terminator. Either every read is written or the last write holds it. The loop equals the ChunkedCopy specification. |
| BodyTransfer.ChunkedCopyStopsAtFirstTerminator | Proxy/Program.cs:120-130 | When read k is the first whose bytes hold "0\r\n\r\n", the copy writes exactly reads 0 to k. |
| BodyTransfer.ChunkedCopyWithoutTerminator | Proxy/Program.cs:120-130 | When no read holds the terminator, every read is written and the stream is consumed to its end. |
| BodyTransfer.ChunkedCopyOutcome | Proxy/Program.cs:120-130 | The writes are the reads from the first on. Either they are all of the reads, or the last write holds the terminator. |
| BodyTransfer.ChunkedCopyIsPrefixOfReads | Proxy/Program.cs:124-126 | The chunked copy writes reads in order, from the first, without skipping any. |
| BodyTransfer.ReadsOfSmallSegments | Proxy/Program.cs:124 | When every segment fits the buffer, each read returns exactly one segment. |
| BodyTransfer.SplitTerminatorIsMissed | Proxy/Program.cs:124-128 | A body holding "0\r\n\r\n" split across two reads is not stopped there. The copy runs on to the end of the stream. |
| BodyTransfer.TerminatorInsideChunkStopsEarly | Proxy/Program.cs:124-128 | A chunk whose data makes "0\r\n\r\n" appear stops the copy after that read, and leaves the rest of the body unread. |
| BodyTransfer.AsciiSearchAgrees | Proxy/Program.cs:127 | Searching the ASCII decoding of the bytes for "0\r\n\r\n" finds it iff the bytes hold it. |
| StartLine.StatusFieldIsSecondToken | Proxy/Program.cs:88-90 | There is a status field iff the status line holds a space. It is the second space-separated token, space-free, and follows the first token and one space. |
| Relay.StatusForwarding | Proxy/Program.cs:85-100 | A line is logged iff the status line is not blank and holds a space, and it reads target, " - ", then the second token. The status line is forwarded iff it is not blank. The response headers follow either way. |
| Relay.WellFormedReplyHeadVerbatim | Proxy/Program.cs:85-100 | A reply made of a non-blank status line, non-empty header lines and an empty line reaches the client as exactly that head. |
| Relay.ResponseForwarded | Proxy/Program.cs:85-103 | On a relayed connection the log names the client's target. The client gets ClientResponse of the origin's lines, then the whole rest of the origin's byte stream. |
| Relay.RequestBodyForwarded | Proxy/Program.cs:78-82 | The origin receives the body copy the request's framing selects. It is a prefix of the client's body, in writes of 1 to 8192 bytes. |
| Relay.RequestBodyIsPrefix | Proxy/Program.cs:78-82 | For each framing: no body; min(n, available) leading bytes for length n; or the chunked outcome (reads from the first, all of them or up to one holding the terminator). |
| Relay.EchoRoundTrip | Proxy/Program.cs:79-103 | With an origin that echoes the request body, a client whose last Content-Length equals the length of its body gets that body back unchanged. |
| Relay.WellFormedExchange | Proxy/Program.cs:31-103 | The relay is transparent for well-formed messages. The request head reaches the origin with only the target rewritten. A status line, header lines and an empty line reach the client unchanged, followed by all of the origin's body. The second status field is logged with the client's target. |
| Relay.WellFormedRequestLine | Proxy/Program.cs:35-44 | Three space-free fields with an absolute http target are accepted as exactly those fields. |
| Text.SplitCount | Proxy/Program.cs:35-36 | A line splits on spaces into one more token than it has spaces. |
| Text.SplitUnique | Proxy/Program.cs:35 | The split is the only way to cut a line into space-free pieces that join back to it. |
| Text.SplitAtMostAgrees | Proxy/Program.cs:88 | A split limited to 3 pieces has min(3, tokens) pieces and agrees with the plain split on every piece but the last. |
| Streams.ReadChunk | Proxy/Program.cs:113 | A read with room for count bytes returns at most count bytes, in stream order and without loss. It returns none only at the end of the stream or when count is 0. |
| Streams.Read | Proxy/Program.cs:113 | The buffer's first n bytes are what the read returned, and the rest of the buffer is unchanged. |

## Left out

- `Main` and the accept loop with `Task.Run` (`Proxy/Program.cs:10-21`): socket binding and concurrency. The startup console message goes with them.
- Sockets and network streams: `ConnectAsync` is the `reachable` oracle. A failed connection, which raises an exception in the source, is the `Unreachable` outcome.
- `Uri.TryCreate` and `int.TryParse` are oracles (`tryCreate`, `tryParse`); their parsing rules are not modelled.
- The line readers' read-ahead: a `StreamReader` may buffer body bytes that follow the header block. The model keeps lines and body as separate streams.
- The newline `WriteLineAsync` appends (`Environment.NewLine`): output is modelled as lines.
- Culture-sensitive `ToLower` and non-ASCII case folding: the line readers decode ASCII, so only ASCII letters are folded.
- Console output other than the status log line.
- `CopyToAsync` (`Proxy/Program.cs:103`) is the whole rest of the origin's stream. It is not split into reads.
- The origin's reply is an oracle function of the lines and bytes it received. Timing and interleaving with the request upload are not modelled.
- Exceptions from I/O and the disposal of the clients.
- 32-bit overflow of `remaining`: none can happen, because it starts at a positive `int` and only decreases. The model uses unbounded integers.
- A concrete example exchange with literal request text: splitting string literals is too costly for the verifier. The generic `Relay.WellFormedExchange` covers that case.
