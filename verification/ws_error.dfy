/**
 * Errors of the WebSocket client: a transport error from the WebSocket
 * library, a frame the client did not expect, or a JSON error. The
 * library's own error and message types are reduced to the cases the
 * client looks at.
 */
module WsError {
  import opened Wrappers
  import opened Radix

  /** The WebSocket library's error; only `ConnectionClosed` is ever built by the client itself. */
  datatype TransportError = ConnectionClosed | AlreadyClosed | Protocol(detail: string) | Io(detail: string)

  /** serde_json's error, known only by its message. */
  datatype JsonError = JsonError(message: string)

  datatype CloseFrame = CloseFrame(code: nat, reason: string)

  /** A WebSocket message as the library delivers it. */
  datatype Message =
    | Text(text: string)
    | Binary(data: seq<byte>)
    | Ping(ping: seq<byte>)
    | Pong(pong: seq<byte>)
    | Close(frame: Option<CloseFrame>)
    | Frame(raw: seq<byte>)

  /** The client's error; the `Arc` around the wrapped errors only shares them and is left out. */
  datatype Error =
    | WebSocket(transport: TransportError)
    | UnexpectedMessage(message: Message)
    | Json(json: JsonError)

  /** What `std::error::Error::source` can point at. */
  datatype Cause = TransportCause(transport: TransportError) | JsonCause(json: JsonError)

  /** `Error::source`: the wrapped error, if there is one. */
  function Source(e: Error): (r: Option<Cause>)
    ensures r.None? <==> e.UnexpectedMessage?
    ensures e.WebSocket? ==> r == Some(TransportCause(e.transport))
    ensures e.Json? ==> r == Some(JsonCause(e.json))
  {
    match e
    case WebSocket(t) => Some(TransportCause(t))
    case UnexpectedMessage(_) => None
    case Json(j) => Some(JsonCause(j))
  }

  /** `From<tungstenite::Error> for Error`. */
  function FromTransport(t: TransportError): (e: Error)
    ensures e.WebSocket?
  {
    WebSocket(t)
  }

  /** `From<serde_json::Error> for Error`. */
  function FromJson(j: JsonError): (e: Error)
    ensures e.Json?
  {
    Json(j)
  }

  /** Converting an inner error and asking for the source gives that inner error back. */
  lemma SourceOfConversion(t: TransportError, j: JsonError)
    ensures Source(FromTransport(t)) == Some(TransportCause(t))
    ensures Source(FromJson(j)) == Some(JsonCause(j))
    ensures FromTransport(t) != FromJson(j)
  {
  }

  const WEBSOCKET_PREFIX: string := "websocket error: "
  const UNEXPECTED_PREFIX: string := "websocket unexpected message: "
  const JSON_PREFIX: string := "JSON error: "

  predicate HasPrefix(s: string, p: string) {
    |p| <= |s| && s[..|p|] == p
  }

  /**
   * `Display for Error`: a fixed prefix per variant, then the wrapped value
   * as the library prints it (given here as functions).
   */
  function Display(e: Error, showTransport: TransportError -> string, showMessage: Message -> string, showJson: JsonError -> string): (r: string)
    ensures e.WebSocket? ==> HasPrefix(r, WEBSOCKET_PREFIX) && r[|WEBSOCKET_PREFIX|..] == showTransport(e.transport)
    ensures e.UnexpectedMessage? ==> HasPrefix(r, UNEXPECTED_PREFIX) && r[|UNEXPECTED_PREFIX|..] == showMessage(e.message)
    ensures e.Json? ==> HasPrefix(r, JSON_PREFIX) && r[|JSON_PREFIX|..] == showJson(e.json)
  {
    var (prefix, text) := match e
      case WebSocket(t) => (WEBSOCKET_PREFIX, showTransport(t))
      case UnexpectedMessage(m) => (UNEXPECTED_PREFIX, showMessage(m))
      case Json(j) => (JSON_PREFIX, showJson(j));
    assert (prefix + text)[..|prefix|] == prefix;
    prefix + text
  }

  /** The prefix of the printed error tells which variant it is, whatever the wrapped values print as. */
  lemma DisplayPrefixDeterminesVariant(e: Error, showTransport: TransportError -> string, showMessage: Message -> string, showJson: JsonError -> string)
    ensures var s := Display(e, showTransport, showMessage, showJson);
      && (HasPrefix(s, WEBSOCKET_PREFIX) <==> e.WebSocket?)
      && (HasPrefix(s, UNEXPECTED_PREFIX) <==> e.UnexpectedMessage?)
      && (HasPrefix(s, JSON_PREFIX) <==> e.Json?)
  {
    var s := Display(e, showTransport, showMessage, showJson);
    match e
    case WebSocket(t) =>
      assert s[0] == WEBSOCKET_PREFIX[0];
      assert s[10] == WEBSOCKET_PREFIX[10] != UNEXPECTED_PREFIX[10] && s[0] != JSON_PREFIX[0];
    case UnexpectedMessage(m) =>
      assert s[0] == UNEXPECTED_PREFIX[0];
      assert s[10] == UNEXPECTED_PREFIX[10] != WEBSOCKET_PREFIX[10] && s[0] != JSON_PREFIX[0];
    case Json(j) =>
      assert s[0] != WEBSOCKET_PREFIX[0] && s[0] != UNEXPECTED_PREFIX[0];
  }
}
