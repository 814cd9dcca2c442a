/** One client connection of the proxy (`serve_socks`): method selection,
    the request checks, the single reply and the backend socket it forwards
    to. The backend connect and the relay are not modelled as I/O: whether a
    backend path accepts connections is the input `listening`, and the relay
    is the flag `relayed`. */
module Proxy {
  import opened Bytes
  import opened Stream
  import opened Socks
  import opened SocksIntended
  import opened Paths

  /** A Unix user id, as `uid_t` (`u32`). */
  type Uid = x: int | 0 <= x < 0x1_0000_0000

  /** The parts of `ProxyService` that decide anything about a connection. */
  datatype ProxyService = ProxyService(directory: seq<Byte>, allowedUids: Option<set<Uid>>)

  /** The method-selection message: version 5 and the chosen method. */
  function MethodReply(choice: AuthenticationMethod): (reply: seq<Byte>)
    ensures |reply| == 2 && reply[0] == SOCKS_VERSION5 && AuthenticationMethod(reply[1]) == choice
  {
    [SOCKS_VERSION5, choice.ToU8()]
  }

  /** The reply `send_reply` writes: `VER REP RSV ATYP BND.ADDR BND.PORT` with
      an IPv4 address 0.0.0.0 and port 0. */
  function Reply(code: Byte): (reply: seq<Byte>)
    ensures |reply| == 10 && reply[1] == code
  {
    [SOCKS_VERSION5, code, 0, ADDRESS_TYPE_V4, 0, 0, 0, 0, 0, 0]
  }

  /** A reply is laid out as a request of section 4 of RFC 1928 whose second
      byte carries the code: the request encoder produces it, and the request
      parser reads it back as the IPv4 address 0.0.0.0, port 0. */
  lemma ReplyLayout(code: Byte)
    ensures var unspecified := SocksRequest(SocksCommand(code), IpAddress(V4([0, 0, 0, 0])), 0);
            && WellFormedRequest(unspecified)
            && Reply(code) == EncodeRequest(unspecified, 0)
            && RequestDecide(Reply(code)) == RequestDone(RequestOk(unspecified))
  {
    var unspecified := SocksRequest(SocksCommand(code), IpAddress(V4([0, 0, 0, 0])), 0);
    assert EncodeRequest(unspecified, 0) == Reply(code);
    SocksProperties.RequestCompleteDecides(unspecified, 0, Reply(code));
  }

  /** `send_reply`. */
  method SendReply(socket: ClientSocket, code: Byte)
    modifies socket
    ensures socket.written == old(socket.written) + Reply(code)
    ensures socket.pending == old(socket.pending)
  {
    socket.WriteAll([SOCKS_VERSION5, code, 0, ADDRESS_TYPE_V4, 0, 0, 0, 0, 0, 0]);
  }

  /** What `serve_socks` does with a parsed request: refuse it with a reply
      code, or connect to a backend socket. */
  datatype Verdict = Refuse(code: Byte) | Connect(path: seq<Byte>)

  /** The backend socket for `domain:port`. */
  function BackendPath(directory: seq<Byte>, domain: seq<Byte>, port: nat): seq<Byte>
  {
    Join(directory, FileName(domain, port))
  }

  /** The checks on a request, in the program's order: the command, then the
      address type, then the host name. */
  function Judge(directory: seq<Byte>, request: SocksRequest): Verdict
  {
    if request.command != COMMAND_CONNECT then Refuse(REP_COMMAND_NOT_SUPPORTED)
    else if !request.address.DomainName? then Refuse(REP_ADDRESS_TYPE_NOT_SUPPORTED)
    else if !IsAcceptableHostname(request.address.name) then Refuse(REP_CONNECTION_NOT_ALLOWED)
    else Connect(BackendPath(directory, request.address.name, request.port))
  }

  /** The reply code sent for a parsed request, the backend path a connect was
      tried on, and whether the relay was entered. */
  datatype Response = Response(code: Byte, connectAttempt: Option<seq<Byte>>, relayed: bool)

  /** The answer to a parsed request, given the backend paths that accept connections. */
  function Respond(directory: seq<Byte>, request: SocksRequest, listening: set<seq<Byte>>): Response
  {
    match Judge(directory, request)
    case Refuse(code) => Response(code, None, false)
    case Connect(path) =>
      if path in listening then Response(REP_SUCCEEDED, Some(path), true)
      else Response(REP_HOST_NOT_REACHABLE, Some(path), false)
  }

  /** How a connection ended: `Ok(())`, an `Err` from a parser, or a panic. */
  datatype Outcome = Completed | Failed(error: ReadError) | Panicked

  /** Everything one connection shows to the outside: the bytes written to the
      client before the relay, the backend path a connect was tried on, whether
      the relay was entered, how it ended, and the client bytes left unread. */
  datatype SessionTrace = SessionTrace(
    written: seq<Byte>,
    connectAttempt: Option<seq<Byte>>,
    relayed: bool,
    outcome: Outcome,
    unread: seq<Chunk>)

  /** The session once the greeting parser has produced `hello`, with `rest`
      still to come from the client. */
  function AfterHello(directory: seq<Byte>, hello: HelloResult, rest: seq<Chunk>, listening: set<seq<Byte>>): SessionTrace
  {
    match hello
    case HelloFailed(e) => SessionTrace([], None, false, Failed(e), rest)
    case HelloPanicked => SessionTrace([], None, false, Panicked, rest)
    case HelloOk(methods) =>
      if NO_AUTHENTICATION !in methods then
        SessionTrace(MethodReply(NO_ACCEPTABLE_AUTHENTICATION), None, false, Completed, rest)
      else
        var selected := MethodReply(NO_AUTHENTICATION);
        var run := RequestLoop([], rest);
        match run.result
        case RequestFailed(e) => SessionTrace(selected, None, false, Failed(e), run.rest)
        case RequestOk(request) =>
          var response := Respond(directory, request, listening);
          SessionTrace(selected + Reply(response.code), response.connectAttempt, response.relayed, Completed, run.rest)
  }

  /** The connection as the program runs it, on the client's `chunks`. */
  function Session(directory: seq<Byte>, chunks: seq<Chunk>, listening: set<seq<Byte>>): SessionTrace
  {
    var hello := HelloLoop([], chunks);
    AfterHello(directory, hello.result, hello.rest, listening)
  }

  /** The connection with the greeting parser corrected (`IntendedHelloLoop`). */
  function IntendedSession(directory: seq<Byte>, chunks: seq<Chunk>, listening: set<seq<Byte>>): SessionTrace
  {
    var hello := IntendedHelloLoop([], chunks);
    AfterHello(directory, hello.result, hello.rest, listening)
  }

  /** `serve_socks`. */
  method ServeSocks(service: ProxyService, socket: ClientSocket, listening: set<seq<Byte>>)
    returns (outcome: Outcome, connectAttempt: Option<seq<Byte>>, relayed: bool)
    modifies socket
    ensures var s := Session(service.directory, old(socket.pending), listening);
            && socket.written == old(socket.written) + s.written
            && outcome == s.outcome && connectAttempt == s.connectAttempt && relayed == s.relayed
            && socket.pending == s.unread
  {
    var hello := ReadClientHello(socket);
    outcome, connectAttempt, relayed := ServeAfterHello(service, socket, hello, listening);
  }

  /** The part of `serve_socks` after `read_client_hello` has returned `hello`. */
  method ServeAfterHello(service: ProxyService, socket: ClientSocket, hello: HelloResult, listening: set<seq<Byte>>)
    returns (outcome: Outcome, connectAttempt: Option<seq<Byte>>, relayed: bool)
    modifies socket
    ensures var s := AfterHello(service.directory, hello, old(socket.pending), listening);
            && socket.written == old(socket.written) + s.written
            && outcome == s.outcome && connectAttempt == s.connectAttempt && relayed == s.relayed
            && socket.pending == s.unread
  {
    connectAttempt, relayed := None, false;
    if hello.HelloPanicked? {
      return Panicked, connectAttempt, relayed;
    }
    if hello.HelloFailed? {
      return Failed(hello.error), connectAttempt, relayed;
    }
    var methods := hello.methods;
    if NO_AUTHENTICATION !in methods {
      socket.WriteAll(MethodReply(NO_ACCEPTABLE_AUTHENTICATION));
      return Completed, connectAttempt, relayed;
    }
    socket.WriteAll(MethodReply(NO_AUTHENTICATION));
    var parsed := ReadSocksRequest(socket);
    if parsed.RequestFailed? {
      return Failed(parsed.error), connectAttempt, relayed;
    }
    connectAttempt, relayed := AnswerRequest(service, socket, parsed.request, listening);
    outcome := Completed;
  }

  /** The part of `serve_socks` after `read_socks_request` has returned `request`. */
  method AnswerRequest(service: ProxyService, socket: ClientSocket, request: SocksRequest, listening: set<seq<Byte>>)
    returns (connectAttempt: Option<seq<Byte>>, relayed: bool)
    modifies socket
    ensures var response := Respond(service.directory, request, listening);
            && socket.written == old(socket.written) + Reply(response.code)
            && connectAttempt == response.connectAttempt && relayed == response.relayed
            && socket.pending == old(socket.pending)
  {
    connectAttempt, relayed := None, false;
    if request.command != COMMAND_CONNECT {
      SendReply(socket, REP_COMMAND_NOT_SUPPORTED);
      return;
    }
    if !request.address.DomainName? {
      SendReply(socket, REP_ADDRESS_TYPE_NOT_SUPPORTED);
      return;
    }
    var requestedDomain := request.address.name;
    if !IsAcceptableHostname(requestedDomain) {
      SendReply(socket, REP_CONNECTION_NOT_ALLOWED);
      return;
    }
    var socketPath := Join(service.directory, FileName(requestedDomain, request.port));
    connectAttempt := Some(socketPath);
    if socketPath !in listening {
      SendReply(socket, REP_HOST_NOT_REACHABLE);
      return;
    }
    SendReply(socket, REP_SUCCEEDED);
    relayed := true;
  }
}
