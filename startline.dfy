/**
 * The start lines of the two messages the relay handles: the client's
 * request line, which is checked and rewritten to origin form (section
 * 3.2.1 of RFC 9112), and the origin's status line, whose second field is
 * reported.
 */
module StartLine {
  import opened Common
  import opened Text

  /** The parts of a parsed absolute URI the relay reads (`Uri.TryCreate` is an oracle). */
  datatype Uri = Uri(scheme: string, host: string, isDefaultPort: bool, port: int, pathAndQuery: string)

  /** Where the relay connects. */
  datatype Address = Address(host: string, port: int)

  /** Why a request line ends the connection before any origin is contacted. */
  datatype Rejection =
    | EmptyRequestLine   // end of stream, or an empty first line
    | TooFewTokens       // fewer than three space-separated fields
    | NotAbsoluteHttp    // the target is not an absolute URI with scheme "http"

  /** An accepted request line: tokens 0, 1 and 2 and the parsed target. */
  datatype RequestTarget = RequestTarget(verb: string, fullUrl: string, version: string, uri: Uri)

  /**
   * The checks on the line the client sent first (`None` when the stream
   * ended before a line). Tokens past the third are ignored.
   */
  function ParseRequestLine(requestLine: Option<string>, tryCreate: string -> Option<Uri>)
    : Result<RequestTarget, Rejection>
  {
    if requestLine.None? || requestLine.value == "" then Failure(EmptyRequestLine)
    else
      var tokens := Split(requestLine.value, ' ');
      if |tokens| < 3 then Failure(TooFewTokens)
      else
        match tryCreate(tokens[1])
        case None => Failure(NotAbsoluteHttp)
        case Some(uri) =>
          if uri.scheme != "http" then Failure(NotAbsoluteHttp)
          else Success(RequestTarget(tokens[0], tokens[1], tokens[2], uri))
  }

  /** The request line sent to the origin: method, path and query, version. */
  function OriginForm(t: RequestTarget): string {
    t.verb + " " + t.uri.pathAndQuery + " " + t.version
  }

  /** Host and port to connect to; a URI without an explicit port uses 80. */
  function OriginAddress(uri: Uri): Address {
    Address(uri.host, if uri.isDefaultPort then 80 else uri.port)
  }

  /** Each rejection happens exactly in its own case, stated without the split. */
  lemma RequestLineRejections(requestLine: Option<string>, tryCreate: string -> Option<Uri>)
    ensures ParseRequestLine(requestLine, tryCreate) == Failure(EmptyRequestLine)
      <==> requestLine.None? || requestLine.value == ""
    ensures ParseRequestLine(requestLine, tryCreate) == Failure(TooFewTokens)
      <==> requestLine.Some? && requestLine.value != "" && multiset(requestLine.value)[' '] < 2
    ensures ParseRequestLine(requestLine, tryCreate) == Failure(NotAbsoluteHttp)
      <==> requestLine.Some? && multiset(requestLine.value)[' '] >= 2
           && (var target := Split(requestLine.value, ' ')[1];
               tryCreate(target).None? || tryCreate(target).value.scheme != "http")
  {
    if requestLine.Some? {
      SplitCount(requestLine.value, ' ');
    }
  }

  /**
   * An accepted line starts with its method (`verb`), target and version separated
   * by single spaces, none of which holds a space; the target parsed to an
   * http URI. Whatever follows the version begins with a space and is dropped.
   */
  lemma RequestLineAccepted(requestLine: Option<string>, tryCreate: string -> Option<Uri>)
    requires ParseRequestLine(requestLine, tryCreate).Success?
    ensures var t := ParseRequestLine(requestLine, tryCreate).value;
      var head := t.verb + " " + t.fullUrl + " " + t.version;
      && ' ' !in t.verb && ' ' !in t.fullUrl && ' ' !in t.version
      && tryCreate(t.fullUrl) == Some(t.uri) && t.uri.scheme == "http"
      && requestLine.Some? && head <= requestLine.value
      && (|requestLine.value| > |head| ==> requestLine.value[|head|] == ' ')
  {
    var line := requestLine.value;
    var tokens := Split(line, ' ');
    var t := ParseRequestLine(requestLine, tryCreate).value;
    assert t.verb == tokens[0] && t.fullUrl == tokens[1] && t.version == tokens[2];
    var head := t.verb + " " + t.fullUrl + " " + t.version;
    assert tokens == [tokens[0]] + tokens[1..];
    assert Join(tokens, ' ') == tokens[0] + " " + Join(tokens[1..], ' ');
    assert Join(tokens[1..], ' ') == tokens[1] + " " + Join(tokens[2..], ' ');
    if |tokens| == 3 {
      assert Join(tokens[2..], ' ') == tokens[2];
      assert line == head;
    } else {
      assert Join(tokens[2..], ' ') == tokens[2] + " " + Join(tokens[3..], ' ');
      assert line == head + " " + Join(tokens[3..], ' ');
    }
  }

  /**
   * The status field that is reported: `statusLine.Split(new[] { ' ' }, 3)[1]`
   * when the split gives at least two pieces.
   */
  function StatusField(statusLine: string): Option<string> {
    var parts := SplitAtMost(statusLine, ' ', 3);
    if |parts| >= 2 then Some(parts[1]) else None
  }

  /**
   * There is a status field exactly when the line holds a space; it is the
   * second space-separated token, found right after the first space.
   */
  lemma StatusFieldIsSecondToken(statusLine: string)
    ensures StatusField(statusLine).Some? <==> ' ' in statusLine
    ensures StatusField(statusLine).Some? ==>
      var field := StatusField(statusLine).value;
      var tokens := Split(statusLine, ' ');
      && |tokens| >= 2 && field == tokens[1] && ' ' !in field
      && tokens[0] + " " + field <= statusLine
  {
    var parts := SplitAtMost(statusLine, ' ', 3);
    var tokens := Split(statusLine, ' ');
    SplitCount(statusLine, ' ');
    SplitAtMostAgrees(statusLine, ' ', 3);
    assert ' ' in statusLine <==> multiset(statusLine)[' '] > 0;
    if |parts| == 2 {
      SplitAtMostShort(statusLine, ' ', 3);
      assert Join(tokens, ' ') == tokens[0] + " " + tokens[1];
    } else if |parts| == 3 {
      assert parts[1] == tokens[1];
      assert Join(tokens, ' ') == tokens[0] + " " + Join(tokens[1..], ' ');
      assert Join(tokens[1..], ' ') == tokens[1] + " " + Join(tokens[2..], ' ');
    }
  }
}
