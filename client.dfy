/**
 * The text handling of the command-line client, src/main.rs: which request
 * each subcommand sends, how `send` frames the request, how it splits the
 * response into status line and body, and `parse_status_code`. The socket
 * reads and writes around them are not modelled.
 */
module Client {
  import opened Text

  /** The subcommands. */
  datatype Command = Status | Start(seconds: u64) | Pause | Resume | Toggle | Extend(seconds: u64)

  /** What `main` hands to `send`: method, path and optional JSON payload. */
  datatype Outgoing = Outgoing(verb: string, path: string, payload: Option<string>)

  /** `serde_json::to_string(&SecondsBody { seconds })`, which is compact: `{"seconds":300}`. */
  function SecondsJson(seconds: nat): (s: string)
    ensures IsAscii(s) && |s| == |ShowNat(seconds)| + 12
  {
    assert IsAscii(ShowNat(seconds));
    "{\"seconds\":" + ShowNat(seconds) + "}"
  }

  /** The `match cli.command` table of `main`. */
  function CommandRequest(c: Command): Outgoing {
    match c
    case Status => Outgoing("GET", "/time_left", None)
    case Start(n) => Outgoing("POST", "/start", Some(SecondsJson(n)))
    case Pause => Outgoing("POST", "/pause", None)
    case Resume => Outgoing("POST", "/resume", None)
    case Toggle => Outgoing("POST", "/toggle", None)
    case Extend(n) => Outgoing("POST", "/extend", Some(SecondsJson(n)))
  }

  // ---------------------------------------------------------------------
  // Request framing in `send`

  /** `content_header`: empty exactly when the body is; otherwise type and byte length. */
  function ContentHeader(body: string): (h: string)
    ensures h == "" <==> body == ""
  {
    if body == "" then ""
    else "Content-Type: application/json" + CRLF + "Content-Length: " + ShowNat(Utf8Len(body)) + CRLF
  }

  /** `request`: the text written to the socket. */
  function RequestText(verb: string, path: string, body: string): string {
    verb + " " + path + " HTTP/1.1" + CRLF + "Host: localhost" + CRLF + "Connection: close" + CRLF
    + ContentHeader(body) + CRLF + body
  }

  /** `payload.unwrap_or_default()`: no payload is the empty body. */
  function PayloadBody(payload: Option<string>): string {
    if payload.Some? then payload.value else ""
  }

  /** What `send` writes to the socket for the request `main` hands it. */
  function SendText(out: Outgoing): string {
    RequestText(out.verb, out.path, PayloadBody(out.payload))
  }

  /** Lines each followed by CRLF. */
  function TerminatedLines(lines: seq<string>): string
    decreases |lines|
  {
    if |lines| == 0 then "" else lines[0] + CRLF + TerminatedLines(lines[1..])
  }

  /** The header lines of a request, one per entry, without their CRLF. */
  function RequestLines(verb: string, path: string, body: string): seq<string> {
    [verb + " " + path + " HTTP/1.1", "Host: localhost", "Connection: close"] + ContentLines(body)
  }

  /** The content header lines without their CRLF: none for an empty body. */
  function ContentLines(body: string): seq<string> {
    if body == "" then [] else ["Content-Type: application/json", "Content-Length: " + ShowNat(Utf8Len(body))]
  }

  predicate NoCR(s: string) {
    forall i :: 0 <= i < |s| ==> s[i] != '\r'
  }

  /** Lines that are non-empty and carry no carriage return. */
  predicate PlainLines(lines: seq<string>) {
    forall k :: 0 <= k < |lines| ==> |lines[k]| > 0 && NoCR(lines[k])
  }

  // ---------------------------------------------------------------------
  // Response handling in `send`

  datatype StatusLineError = MissingVersion | MissingCode | InvalidCode

  /** `parse_status_code`: skip the first token, parse the second as u16, ignore the rest. */
  function ParseStatusCode(line: string): (r: Result<u16, StatusLineError>)
    ensures |Words(line)| == 0 <==> r == Err(MissingVersion)
    ensures |Words(line)| == 1 <==> r == Err(MissingCode)
    ensures |Words(line)| >= 2 ==> (r.Ok? <==> ParseU16(Words(line)[1]).Some?)
    ensures r.Ok? ==> ParseU16(Words(line)[1]) == Some(r.value)
  {
    var parts := Words(line);
    if |parts| == 0 then Err(MissingVersion)
    else if |parts| == 1 then Err(MissingCode)
    else match ParseU16(parts[1])
      case None => Err(InvalidCode)
      case Some(code) => Ok(code)
  }

  datatype ClientError =
    | MissingStatusLine
    | BadStatusLine(reason: StatusLineError)
    | MissingBodySeparator
    | ServerStatus(code: u16, body: string)

  /**
   * The checks `send` makes on the text it read, in the order it makes them;
   * `Ok` carries the body that would go on to JSON decoding.
   */
  function ReadResponse(response: string): Result<string, ClientError> {
    match SplitOnce(response, CRLF)
    case None => Err(MissingStatusLine)
    case Some((statusLine, rest)) =>
      match ParseStatusCode(statusLine)
      case Err(e) => Err(BadStatusLine(e))
      case Ok(code) =>
        match SplitOnce(rest, BLANK_LINE)
        case None => Err(MissingBodySeparator)
        case Some((_, body)) =>
          if 200 <= code < 300 then Ok(body) else Err(ServerStatus(code, body))
  }

  /** A response as a server frames it: status line, header lines, a blank line, the body. */
  function FramedResponse(statusLine: string, headers: seq<string>, body: string): string {
    statusLine + CRLF + TerminatedLines(headers) + CRLF + body
  }
}
