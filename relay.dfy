/**
 * One connection of the proxy, from the client's request line to the raw
 * copy of the origin's response body (`HandleClientAsync`).
 *
 * The client and the origin are each seen as a stream of text lines (what
 * their line readers return) and a stream of body bytes. The parts of the
 * world the relay cannot see are parameters: the URI parser, the integer
 * parser, whether a connection to an address succeeds, and what the origin
 * replies to the request it receives.
 */
module Relay {
  import opened Common
  import opened Text
  import opened Streams
  import opened StartLine
  import opened Headers
  import opened BodyTransfer

  /** What a peer sends: its lines as a line reader returns them, and its body bytes. */
  datatype Peer = Peer(lines: seq<string>, body: seq<Segment>)

  /** The relay's collaborators. */
  datatype Environment = Environment(
    tryCreate: string -> Option<Uri>,               // `Uri.TryCreate(s, UriKind.Absolute, out uri)`
    tryParse: string -> Option<Int32>,              // `int.TryParse(s, out n)`
    reachable: Address -> bool,                     // whether `ConnectAsync(host, port)` succeeds
    respond: (seq<string>, seq<byte>) -> Peer)      // the origin's reply to the lines and body it received

  /** What the relay sends each way once it is connected. */
  datatype Exchange = Exchange(
    toOrigin: seq<string>,              // request line in origin form, header lines, empty line
    requestBody: seq<seq<byte>>,        // the writes of the request body copy
    log: Option<string>,                // the console line "<target> - <status>", if any
    toClient: seq<string>,              // status line (if forwarded), header lines, empty line
    responseBody: seq<byte>)            // the raw copy of everything the origin sent after its head

  datatype Outcome =
    | Rejected(reason: Rejection)               // closed before any connection attempt
    | Unreachable(origin: Address)              // the connection to the origin failed
    | Relayed(origin: Address, exchange: Exchange)

  /** The lines a reader still has after its first `ReadLine` (nothing once the stream has ended). */
  function LinesAfterFirst(lines: seq<string>): seq<string> {
    if |lines| == 0 then [] else lines[1..]
  }

  /** The request body writes chosen by the framing. */
  function RequestBody(framing: BodyFraming, body: seq<Segment>): seq<seq<byte>> {
    match framing
    case NoBody => []
    case FixedLength(n) => FixedCopy(body, n).0
    case Chunked => ChunkedCopy(body).0
  }

  /** The status line is forwarded when it is neither null nor white space. */
  function ForwardedStatus(statusLine: Option<string>): seq<string> {
    if IsNullOrWhiteSpace(statusLine) then [] else [statusLine.value]
  }

  /** The console line for a forwarded status line that has a second field. */
  function LogLine(fullUrl: string, statusLine: Option<string>): Option<string> {
    if IsNullOrWhiteSpace(statusLine) then None
    else match StatusField(statusLine.value)
      case None => None
      case Some(field) => Some(fullUrl + " - " + field)
  }

  /** The lines sent to the origin: the request line in origin form, the header block, an empty line. */
  function OriginRequest(target: RequestTarget, headerLines: seq<string>): seq<string> {
    [OriginForm(target)] + HeaderBlock(headerLines) + [""]
  }

  /** The lines sent to the client: the status line if forwarded, the header block, an empty line. */
  function ClientResponse(replyLines: seq<string>): seq<string> {
    ForwardedStatus(ReadLine(replyLines, 0)) + HeaderBlock(LinesAfterFirst(replyLines)) + [""]
  }

  /** Everything sent once the origin is connected. */
  function Forward(target: RequestTarget, headerLines: seq<string>, body: seq<Segment>, env: Environment): Exchange {
    var toOrigin := OriginRequest(target, headerLines);
    var requestBody := RequestBody(RequestFraming(HeaderBlock(headerLines), env.tryParse), body);
    var reply := env.respond(toOrigin, Flatten(requestBody));
    Exchange(toOrigin, requestBody, LogLine(target.fullUrl, ReadLine(reply.lines, 0)),
             ClientResponse(reply.lines), Pending(reply.body))
  }

  /** What the relay does with one connection. */
  function Relay(client: Peer, env: Environment): Outcome {
    match ParseRequestLine(ReadLine(client.lines, 0), env.tryCreate)
    case Failure(reason) => Rejected(reason)
    case Success(target) =>
      var origin := OriginAddress(target.uri);
      if !env.reachable(origin) then Unreachable(origin)
      else Relayed(origin, Forward(target, LinesAfterFirst(client.lines), client.body, env))
  }

  /**
   * `HandleClientAsync`: the checks on the request line and the connection
   * to the origin; the exchange that follows is RelayExchange.
   */
  method HandleClient(client: Peer, env: Environment) returns (outcome: Outcome)
    ensures outcome == Relay(client, env)
  {
    var requestLine := ReadLine(client.lines, 0);
    if requestLine.None? || requestLine.value == "" {
      return Rejected(EmptyRequestLine);
    }
    var tokens := Split(requestLine.value, ' ');
    if |tokens| < 3 {
      return Rejected(TooFewTokens);
    }
    var verb, fullUrl, version := tokens[0], tokens[1], tokens[2];
    var parsed := env.tryCreate(fullUrl);
    if parsed.None? || parsed.value.scheme != "http" {
      return Rejected(NotAbsoluteHttp);
    }
    var uri := parsed.value;
    var port := if uri.isDefaultPort then 80 else uri.port;
    var origin := Address(uri.host, port);
    if !env.reachable(origin) {
      return Unreachable(origin);
    }
    var target := RequestTarget(verb, fullUrl, version, uri);
    assert ParseRequestLine(requestLine, env.tryCreate) == Success(target);
    var exchange := RelayExchange(target, client.lines[1..], client.body, env);
    outcome := Relayed(origin, exchange);
  }

  /**
   * The part of `HandleClientAsync` after the connection succeeds: the
   * request head and body to the origin, then the status line, the
   * response headers and the rest of the origin's stream to the client.
   */
  method RelayExchange(target: RequestTarget, headerLines: seq<string>, body: seq<Segment>, env: Environment)
    returns (exchange: Exchange)
    ensures exchange == Forward(target, headerLines, body, env)
  {
    var toOrigin, requestBody := SendRequest(target, headerLines, body, env.tryParse);
    var reply := env.respond(toOrigin, Flatten(requestBody));
    var log, toClient := ReceiveResponse(target.fullUrl, reply.lines);
    exchange := Exchange(toOrigin, requestBody, log, toClient, Pending(reply.body));
  }

  /** The request line in origin form, the header loop, and the body copy its framing selects. */
  method SendRequest(target: RequestTarget, headerLines: seq<string>, body: seq<Segment>,
                     tryParse: string -> Option<Int32>)
    returns (toOrigin: seq<string>, requestBody: seq<seq<byte>>)
    ensures toOrigin == OriginRequest(target, headerLines)
    ensures requestBody == RequestBody(RequestFraming(HeaderBlock(headerLines), tryParse), body)
  {
    toOrigin := [target.verb + " " + target.uri.pathAndQuery + " " + target.version];
    var headers, contentLength, isChunked := ScanRequestHeaders(headerLines, tryParse);
    toOrigin := toOrigin + headers;
    requestBody := [];
    var unread: seq<Segment>;
    if contentLength > 0 {
      requestBody, unread := CopyContent(body, contentLength);
    } else if isChunked {
      requestBody, unread := TransferChunked(body);
    }
  }

  /** The status line (forwarded and logged when it is not blank) and the response header loop. */
  method ReceiveResponse(fullUrl: string, replyLines: seq<string>) returns (log: Option<string>, toClient: seq<string>)
    ensures log == LogLine(fullUrl, ReadLine(replyLines, 0))
    ensures toClient == ClientResponse(replyLines)
  {
    toClient, log := [], None;
    var responseLine := ReadLine(replyLines, 0);
    if !IsNullOrWhiteSpace(responseLine) {
      var statusParts := SplitAtMost(responseLine.value, ' ', 3);
      if |statusParts| >= 2 {
        log := Some(fullUrl + " - " + statusParts[1]);
      }
      toClient := [responseLine.value];
    }
    var responseHeaders := RelayHeaders(LinesAfterFirst(replyLines));
    toClient := toClient + responseHeaders;
  }

  /**
   * A connection is rejected exactly when its request line is, for the
   * reason the line's checks give (see RequestLineRejections); a rejected
   * connection never reaches the origin, so neither whether it is reachable
   * nor what it would reply changes the outcome.
   */
  lemma RejectedBeforeConnecting(client: Peer, env: Environment, reachable: Address -> bool,
                                 respond: (seq<string>, seq<byte>) -> Peer)
    ensures Relay(client, env).Rejected?
      <==> ParseRequestLine(ReadLine(client.lines, 0), env.tryCreate).Failure?
    ensures Relay(client, env).Rejected? ==>
      Relay(client, env).reason == ParseRequestLine(ReadLine(client.lines, 0), env.tryCreate).error
    ensures !Relay(client, env).Relayed? ==>
      Relay(client, env.(respond := respond)) == Relay(client, env)
    ensures Relay(client, env).Rejected? ==>
      Relay(client, env.(reachable := reachable, respond := respond)) == Relay(client, env)
  {
  }


  /** A relayed connection, taken apart: its accepted request line and the exchange that follows. */
  lemma RelayedParts(client: Peer, env: Environment)
    requires Relay(client, env).Relayed?
    ensures |client.lines| > 0
    ensures ParseRequestLine(Some(client.lines[0]), env.tryCreate).Success?
    ensures var target := ParseRequestLine(Some(client.lines[0]), env.tryCreate).value;
      && env.reachable(OriginAddress(target.uri))
      && Relay(client, env) == Relayed(OriginAddress(target.uri), Forward(target, client.lines[1..], client.body, env))
  {
  }

  /**
   * The origin gets the request line rewritten to origin form from tokens
   * 0 and 2 of the client's line and the parsed target, at the target's
   * host and port (80 when the URI gives none); then the client's header
   * lines, unchanged and in order, up to the first empty line or the end
   * of the stream; then one empty line.
   */
  lemma RequestHeadForwarded(client: Peer, env: Environment)
    requires Relay(client, env).Relayed?
    ensures |client.lines| > 0
    ensures var tokens := Split(client.lines[0], ' ');
      var uri := env.tryCreate(tokens[1]).value;
      var ex := Relay(client, env).exchange;
      && |tokens| >= 3 && env.tryCreate(tokens[1]).Some? && uri.scheme == "http"
      && Relay(client, env).origin == Address(uri.host, if uri.isDefaultPort then 80 else uri.port)
      && env.reachable(Relay(client, env).origin)
      && |ex.toOrigin| >= 2
      && ex.toOrigin[0] == tokens[0] + " " + uri.pathAndQuery + " " + tokens[2]
    ensures var ex := Relay(client, env).exchange;
      var sent := ex.toOrigin[1..|ex.toOrigin| - 1];
      && |ex.toOrigin| >= 2 && ex.toOrigin[|ex.toOrigin| - 1] == ""
      && sent <= client.lines[1..]
      && (forall j :: 0 <= j < |sent| ==> sent[j] != "")
      && (|sent| < |client.lines[1..]| ==> client.lines[1 + |sent|] == "")
  {
    RelayedParts(client, env);
    var target := ParseRequestLine(Some(client.lines[0]), env.tryCreate).value;
    var headerLines := client.lines[1..];
    var toOrigin := Relay(client, env).exchange.toOrigin;
    assert toOrigin == OriginRequest(target, headerLines);
    assert toOrigin[1..|toOrigin| - 1] == HeaderBlock(headerLines);
  }

  /**
   * The request body the origin gets is the copy the request's framing
   * selects, and so a prefix of what the client sends, in writes of at
   * most 8192 bytes (see RequestBodyIsPrefix).
   */
  lemma RequestBodyForwarded(client: Peer, env: Environment)
    requires Relay(client, env).Relayed?
    ensures |client.lines| > 0
    ensures Relay(client, env).exchange.requestBody
      == RequestBody(RequestFraming(HeaderBlock(client.lines[1..]), env.tryParse), client.body)
    ensures var writes := Relay(client, env).exchange.requestBody;
      && Flatten(writes) <= Pending(client.body)
      && forall i :: 0 <= i < |writes| ==> 0 < |writes[i]| <= BufferSize
  {
    RelayedParts(client, env);
    RequestBodyIsPrefix(RequestFraming(HeaderBlock(client.lines[1..]), env.tryParse), client.body);
  }

  /**
   * Each framing copies a prefix of the body in writes of at most 8192
   * bytes: nothing without framing; for a positive length n, the first n
   * bytes, or all of them when the client closes sooner; for chunked
   * framing, the client's reads from the first on, ending with the first
   * that holds "0\r\n\r\n" if one does, and otherwise with the last.
   */
  lemma RequestBodyIsPrefix(framing: BodyFraming, body: seq<Segment>)
    ensures var writes := RequestBody(framing, body);
      && Flatten(writes) <= Pending(body)
      && forall i :: 0 <= i < |writes| ==> 0 < |writes[i]| <= BufferSize
    ensures var writes := RequestBody(framing, body);
      match framing
      case NoBody => writes == []
      case FixedLength(n) => |Flatten(writes)| == Min(Max(n, 0), |Pending(body)|)
      case Chunked =>
        && writes <= Reads(body)
        && (forall i :: 0 <= i < |writes| - 1 ==> !HasTerminator(writes[i]))
        && (writes == Reads(body) || HasTerminator(writes[|writes| - 1]))
  {
    match framing
    case NoBody =>
    case FixedLength(n) =>
      FixedCopyConserves(body, n);
      FixedCopyLength(body, n);
      FixedCopyWriteSizes(body, n);
    case Chunked =>
      ChunkedCopyOutcome(body);
      var r := ChunkedCopy(body);
      assert Flatten(r.0) + Pending(r.1) == Pending(body);
  }

  /**
   * The status line goes to the client exactly when it is neither null nor
   * white space; it is logged, with the client's target, exactly when it
   * also holds a space, and the logged field is its second token. The
   * response header block follows either way.
   */
  lemma StatusForwarding(fullUrl: string, replyLines: seq<string>)
    ensures var status := ReadLine(replyLines, 0);
      var log := LogLine(fullUrl, status);
      && (log.Some? <==> !IsNullOrWhiteSpace(status) && ' ' in status.value)
      && (log.Some? ==> log.value == fullUrl + " - " + Split(status.value, ' ')[1])
      && (!IsNullOrWhiteSpace(status) ==>
            ClientResponse(replyLines) == [status.value] + HeaderBlock(replyLines[1..]) + [""])
      && (IsNullOrWhiteSpace(status) ==>
            ClientResponse(replyLines) == HeaderBlock(LinesAfterFirst(replyLines)) + [""])
  {
    var status := ReadLine(replyLines, 0);
    if !IsNullOrWhiteSpace(status) {
      StatusFieldIsSecondToken(status.value);
    }
  }

  /**
   * A reply that starts with a status line, header lines and an empty line
   * has that head passed to the client line for line.
   */
  lemma WellFormedReplyHeadVerbatim(status: string, headers: seq<string>, more: seq<string>)
    requires !IsBlank(status)
    requires forall j :: 0 <= j < |headers| ==> headers[j] != ""
    ensures ClientResponse([status] + headers + [""] + more) == [status] + headers + [""]
  {
    var lines := [status] + headers + [""] + more;
    assert lines[1..] == headers + [""] + more;
    HeaderBlockIsLongestPrefix(lines[1..], |headers|);
    assert (headers + [""] + more)[..|headers|] == headers;
  }

  /**
   * On a relayed connection the client gets the status line, the header
   * block and the whole rest of the origin's reply, as StatusForwarding
   * describes, and the log line names the client's target.
   */
  lemma ResponseForwarded(client: Peer, env: Environment)
    requires Relay(client, env).Relayed?
    ensures |client.lines| > 0
    ensures var ex := Relay(client, env).exchange;
      var reply := env.respond(ex.toOrigin, Flatten(ex.requestBody));
      && ex.log == LogLine(Split(client.lines[0], ' ')[1], ReadLine(reply.lines, 0))
      && ex.toClient == ClientResponse(reply.lines)
      && ex.responseBody == Pending(reply.body)
  {
    RelayedParts(client, env);
  }

  /**
   * Round trip through an origin that echoes the request body: a client
   * that sends exactly its Content-Length's worth of body gets that body
   * back unchanged.
   */
  lemma EchoRoundTrip(client: Peer, env: Environment)
    requires Relay(client, env).Relayed?
    requires forall lines, body :: Pending(env.respond(lines, body).body) == body
    requires |client.lines| > 0
    requires LastContentLength(HeaderBlock(client.lines[1..]), env.tryParse) == |Pending(client.body)|
    ensures Relay(client, env).exchange.responseBody == Pending(client.body)
  {
    RelayedParts(client, env);
    var n := |Pending(client.body)|;
    var framing := RequestFraming(HeaderBlock(client.lines[1..]), env.tryParse);
    var ex := Relay(client, env).exchange;
    assert ex.requestBody == RequestBody(framing, client.body);
    if n > 0 {
      FixedCopyIsPrefix(client.body, n);
    } else {
      PendingEmpty(client.body);
      if framing.Chunked? {
        assert ReadChunk(client.body, BufferSize).0 == [];
      }
    }
  }

  /**
   * The relay is transparent for well-formed messages: a request line of
   * three space-free fields with an absolute http target, header lines and
   * an empty line reach the origin with only the target rewritten to its
   * path and query; a reply made of a status line, header lines and an
   * empty line reaches the client unchanged, followed by all of the
   * origin's body; and the status line's second field, if it has one, is
   * logged with the client's target.
   */
  lemma WellFormedExchange(client: Peer, env: Environment, verb: string, fullUrl: string, version: string,
                           uri: Uri, headers: seq<string>, status: string, responseHeaders: seq<string>,
                           responseBody: seq<Segment>)
    requires ' ' !in verb && ' ' !in fullUrl && ' ' !in version
    requires env.tryCreate(fullUrl) == Some(uri) && uri.scheme == "http" && env.reachable(OriginAddress(uri))
    requires forall j :: 0 <= j < |headers| ==> headers[j] != ""
    requires |client.lines| > 0 && client.lines[0] == verb + " " + fullUrl + " " + version
    requires client.lines[1..] == headers + [""]
    requires var toOrigin := [verb + " " + uri.pathAndQuery + " " + version] + headers + [""];
      var requestBody := RequestBody(RequestFraming(headers, env.tryParse), client.body);
      env.respond(toOrigin, Flatten(requestBody)) == Peer([status] + responseHeaders + [""], responseBody)
    requires !IsBlank(status)
    requires forall j :: 0 <= j < |responseHeaders| ==> responseHeaders[j] != ""
    ensures Relay(client, env) == Relayed(OriginAddress(uri), Exchange(
      [verb + " " + uri.pathAndQuery + " " + version] + headers + [""],
      RequestBody(RequestFraming(headers, env.tryParse), client.body),
      if ' ' in status then Some(fullUrl + " - " + Split(status, ' ')[1]) else None,
      [status] + responseHeaders + [""],
      Pending(responseBody)))
  {
    var target := RequestTarget(verb, fullUrl, version, uri);
    WellFormedRequestLine(verb, fullUrl, version, uri, env.tryCreate);
    assert Relay(client, env) == Relayed(OriginAddress(uri), Forward(target, client.lines[1..], client.body, env));
    WellFormedForward(target, headers, client.body, env, status, responseHeaders, responseBody);
    assert client.lines[1..] == headers + [""] + [];
  }

  /** A request line of three space-free fields with an absolute http target is accepted as those fields. */
  lemma WellFormedRequestLine(verb: string, fullUrl: string, version: string, uri: Uri, tryCreate: string -> Option<Uri>)
    requires ' ' !in verb && ' ' !in fullUrl && ' ' !in version
    requires tryCreate(fullUrl) == Some(uri) && uri.scheme == "http"
    ensures ParseRequestLine(Some(verb + " " + fullUrl + " " + version), tryCreate)
      == Success(RequestTarget(verb, fullUrl, version, uri))
  {
    SplitThree(verb, fullUrl, version, ' ');
  }

  /** The connected part of WellFormedExchange: the exchange for a header block and a well-formed reply. */
  lemma WellFormedForward(target: RequestTarget, headers: seq<string>, body: seq<Segment>, env: Environment,
                          status: string, responseHeaders: seq<string>, responseBody: seq<Segment>)
    requires forall j :: 0 <= j < |headers| ==> headers[j] != ""
    requires var toOrigin := [OriginForm(target)] + headers + [""];
      var requestBody := RequestBody(RequestFraming(headers, env.tryParse), body);
      env.respond(toOrigin, Flatten(requestBody)) == Peer([status] + responseHeaders + [""], responseBody)
    requires !IsBlank(status)
    requires forall j :: 0 <= j < |responseHeaders| ==> responseHeaders[j] != ""
    ensures Forward(target, headers + [""], body, env) == Exchange(
      [OriginForm(target)] + headers + [""],
      RequestBody(RequestFraming(headers, env.tryParse), body),
      if ' ' in status then Some(target.fullUrl + " - " + Split(status, ' ')[1]) else None,
      [status] + responseHeaders + [""],
      Pending(responseBody))
  {
    var headerLines := headers + [""];
    HeaderBlockIsLongestPrefix(headerLines, |headers|);
    assert HeaderBlock(headerLines) == headers;
    var replyLines := [status] + responseHeaders + [""];
    WellFormedReplyHeadVerbatim(status, responseHeaders, []);
    assert replyLines + [] == replyLines;
    StatusForwarding(target.fullUrl, replyLines);
  }
}
