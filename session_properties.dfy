/** What one connection writes, when it tries a backend and when it relays,
    stated over `Proxy.AfterHello` (so for the program as written and for the
    corrected greeting parser alike) and over `Proxy.Session`. */
module SessionProperties {
  import opened Bytes
  import opened Utf8
  import opened Decimal
  import opened Stream
  import opened Socks
  import opened SocksProperties
  import opened SocksIntended
  import opened Paths
  import opened Proxy

  /** The client hears nothing unless the greeting parsed; a parsed greeting
      without method 0 is answered `[5, 255]` and no request is read; one with
      method 0 is answered `[5, 0]` before anything else. */
  lemma MethodSelection(directory: seq<Byte>, hello: HelloResult, rest: seq<Chunk>, listening: set<seq<Byte>>)
    ensures var s := AfterHello(directory, hello, rest, listening);
            && (s.written == [] <==> !hello.HelloOk?)
            && (s.written == [SOCKS_VERSION5, 255] <==> hello.HelloOk? && NO_AUTHENTICATION !in hello.methods)
            && (hello.HelloOk? && NO_AUTHENTICATION !in hello.methods ==> s.unread == rest && s.outcome == Completed)
            && (hello.HelloOk? && NO_AUTHENTICATION in hello.methods <==>
                  |s.written| >= 2 && s.written[..2] == [SOCKS_VERSION5, 0])
            && (!hello.HelloOk? ==> s.unread == rest && (s.outcome == Panicked <==> hello == HelloPanicked))
  {
    var s := AfterHello(directory, hello, rest, listening);
    if hello.HelloOk? && NO_AUTHENTICATION in hello.methods {
      assert s.written[..2] == [SOCKS_VERSION5, 0];
    }
  }

  /** After the method reply comes at most one reply, and it has the fixed
      ten-byte layout. */
  lemma OneReplyAtMost(directory: seq<Byte>, hello: HelloResult, rest: seq<Chunk>, listening: set<seq<Byte>>)
    ensures var s := AfterHello(directory, hello, rest, listening);
            || s.written == []
            || s.written == [SOCKS_VERSION5, 255]
            || s.written == [SOCKS_VERSION5, 0]
            || (|s.written| == 12 && s.written[..2] == [SOCKS_VERSION5, 0] && s.written[2..] == Reply(s.written[3]))
  {
    var s := AfterHello(directory, hello, rest, listening);
    if |s.written| == 12 {
      assert s.written[..2] == [SOCKS_VERSION5, 0];
      assert s.written[2..] == Reply(s.written[3]);
    }
  }

  /** The reply code follows the checks in order: 7 for a command other than
      CONNECT, 8 for an IP address, 2 for an unacceptable host name, 4 when the
      backend does not accept, 0 exactly when the relay is entered. A reply is
      sent exactly when the greeting offered method 0 and a request parsed. */
  lemma DecisionOrder(directory: seq<Byte>, hello: HelloResult, rest: seq<Chunk>, listening: set<seq<Byte>>)
    ensures var s := AfterHello(directory, hello, rest, listening);
            var parsed := RequestLoop([], rest).result;
            && (|s.written| == 12 <==> hello.HelloOk? && NO_AUTHENTICATION in hello.methods && parsed.RequestOk?)
            && (|s.written| == 12 ==>
                  var request := parsed.request;
                  var code := s.written[3];
                  && (code == REP_COMMAND_NOT_SUPPORTED <==> request.command != COMMAND_CONNECT)
                  && (code == REP_ADDRESS_TYPE_NOT_SUPPORTED <==>
                        request.command == COMMAND_CONNECT && request.address.IpAddress?)
                  && (code == REP_CONNECTION_NOT_ALLOWED <==>
                        request.command == COMMAND_CONNECT && request.address.DomainName?
                        && !IsAcceptableHostname(request.address.name))
                  && (code == REP_HOST_NOT_REACHABLE <==>
                        s.connectAttempt.Some? && s.connectAttempt.value !in listening)
                  && (code == REP_SUCCEEDED <==> s.relayed))
  {
    var s := AfterHello(directory, hello, rest, listening);
    if |s.written| == 12 {
      assert s.written[3] == s.written[2..][1];
    }
  }

  /** A backend connect is tried exactly when every check passed, and on the
      socket for the requested name and port, which lies directly in the
      configured directory. */
  lemma ConnectOnlyWhenChecksPass(directory: seq<Byte>, hello: HelloResult, rest: seq<Chunk>, listening: set<seq<Byte>>)
    ensures var s := AfterHello(directory, hello, rest, listening);
            var parsed := RequestLoop([], rest).result;
            && (s.connectAttempt.Some? <==>
                  && hello.HelloOk? && NO_AUTHENTICATION in hello.methods && parsed.RequestOk?
                  && parsed.request.command == COMMAND_CONNECT && parsed.request.address.DomainName?
                  && IsAcceptableHostname(parsed.request.address.name))
            && (s.connectAttempt.Some? ==>
                  var path := s.connectAttempt.value;
                  var name := FileName(parsed.request.address.name, parsed.request.port);
                  && path == BackendPath(directory, parsed.request.address.name, parsed.request.port)
                  && SLASH !in name && |name| <= |path| && path[|path| - |name|..] == name
                  && (path[..|path| - |name|] == directory || path[..|path| - |name|] == directory + [SLASH]))
  {
    var s := AfterHello(directory, hello, rest, listening);
    if s.connectAttempt.Some? {
      var request := RequestLoop([], rest).result.request;
      BackendPathIsDirectChild(directory, request.address.name, request.port);
    }
  }

  /** The relay is entered exactly when the backend socket accepted, and then
      the client has heard `[5, 0]` and reply 0 and nothing else. */
  lemma RelayOnlyWhenAccepted(directory: seq<Byte>, hello: HelloResult, rest: seq<Chunk>, listening: set<seq<Byte>>)
    ensures var s := AfterHello(directory, hello, rest, listening);
            && (s.relayed <==> s.connectAttempt.Some? && s.connectAttempt.value in listening)
            && (s.relayed <==> s.written == MethodReply(NO_AUTHENTICATION) + Reply(REP_SUCCEEDED))
  {
    var s := AfterHello(directory, hello, rest, listening);
    if s.written == MethodReply(NO_AUTHENTICATION) + Reply(REP_SUCCEEDED) {
      assert s.written[3] == REP_SUCCEEDED;
    }
  }

  /** End to end: a greeting with method 0 in one read, then a CONNECT request
      for an acceptable host name in any chunking; the proxy tries the socket
      `directory/name_port`, answers 0 and relays when it accepts, 4 otherwise. */
  lemma HappyPath(directory: seq<Byte>, methods: seq<AuthenticationMethod>, request: SocksRequest,
                  reserved: Byte, extra: seq<Byte>, requestChunks: seq<Chunk>, listening: set<seq<Byte>>)
    requires |methods| <= 254 && NO_AUTHENTICATION in methods
    requires WellFormedRequest(request) && request.command == COMMAND_CONNECT
    requires request.address.DomainName? && IsAcceptableHostname(request.address.name)
    requires Flatten(requestChunks) == EncodeRequest(request, reserved) + extra
    ensures |Greeting(methods)| > 0
    ensures var s := Session(directory, [Greeting(methods)] + requestChunks, listening);
            var path := BackendPath(directory, request.address.name, request.port);
            && s.connectAttempt == Some(path)
            && (s.relayed <==> path in listening)
            && s.written == MethodReply(NO_AUTHENTICATION) + Reply(if path in listening then REP_SUCCEEDED else REP_HOST_NOT_REACHABLE)
            && s.outcome == Completed
  {
    HelloWholeGreeting(methods, requestChunks);
    RequestRoundTrip(request, reserved, extra, requestChunks);
  }

  /** A whole request delivered in one read is decided on that read, with
      nothing left over. */
  lemma SingleChunkRequest(request: SocksRequest, reserved: Byte)
    requires WellFormedRequest(request)
    ensures var wire := EncodeRequest(request, reserved);
            |wire| > 0 && RequestLoop([], [wire]) == RequestRun(RequestOk(request), wire, [])
  {
    var wire := EncodeRequest(request, reserved);
    var chunks: seq<Chunk> := [wire];
    var d := Receive(chunks, REQUEST_BUFFER_SIZE);
    assert d == Delivery(wire, []);
    assert [] + wire == wire;
    RequestCompleteDecides(request, reserved, wire);
    RequestLoopTurn([], chunks, d, RequestDecide(wire));
  }

  /** The bytes of `/tmp/pub` and `myapp.foo`. */
  predicate IsExampleDirectory(directory: seq<Byte>)
  {
    directory == [0x2F, 0x74, 0x6D, 0x70, 0x2F, 0x70, 0x75, 0x62]
  }

  predicate IsExampleHost(host: seq<Byte>)
  {
    host == [0x6D, 0x79, 0x61, 0x70, 0x70, 0x2E, 0x66, 0x6F, 0x6F]
  }

  /** Port 80 is named by `_80`; the directory does not end in `/`, so one is
      inserted. */
  lemma ExampleBackendPath(directory: seq<Byte>, host: seq<Byte>)
    requires IsExampleDirectory(directory) && IsExampleHost(host)
    ensures BackendPath(directory, host, 80) == directory + [SLASH] + host + [UNDERSCORE, 0x38, 0x30]
  {
    assert Format(80) == [0x38, 0x30] by {
      assert Format(8) == [0x38];
    }
  }

  /** `myapp.foo` is a conventional DNS name, so it is UTF-8 and passes the
      host-name filter. */
  lemma ExampleHostAccepted(host: seq<Byte>)
    requires IsExampleHost(host)
    ensures IsUtf8(host) && IsAcceptableHostname(host)
  {
    assert forall i :: 0 <= i < |host| ==> IsHostNameByte(host[i]) && host[i] < 0x80;
    HostNamesAcceptable(host);
    AsciiIsUtf8(host);
  }

  /** The CONNECT request for `myapp.foo:80` has the wire form
      `05 01 00 03 09 myapp.foo 00 50`. */
  lemma ExampleWire(host: seq<Byte>)
    requires IsExampleHost(host)
    ensures var request := SocksRequest(COMMAND_CONNECT, DomainName(host), 80);
            && WellFormedRequest(request)
            && EncodeRequest(request, 0) == [SOCKS_VERSION5, 1, 0, 3, 9] + host + [0, 80]
  {
    ExampleHostAccepted(host);
    assert PortFromBytes(0, 80) == 80;
  }

  /** The method reply for "no authentication" followed by the success reply. */
  lemma AcceptedBytes()
    ensures MethodReply(NO_AUTHENTICATION) + Reply(REP_SUCCEEDED) == [5, 0, 5, 0, 0, 1, 0, 0, 0, 0, 0, 0]
  {
  }

  /** The request for `myapp.foo:80` behind the directory `/tmp/pub`, sent as
      one greeting offering method 0 and one request: the proxy writes `[5, 0]`
      and the success reply, and relays to `/tmp/pub/myapp.foo_80`. */
  lemma ExampleSession(directory: seq<Byte>, host: seq<Byte>, chunks: seq<Chunk>)
    requires IsExampleDirectory(directory) && IsExampleHost(host)
    requires chunks == [[SOCKS_VERSION5, 1, 0], [SOCKS_VERSION5, 1, 0, 3, 9] + host + [0, 80]]
    ensures var path := directory + [SLASH] + host + [UNDERSCORE, 0x38, 0x30];
            Session(directory, chunks, {path})
              == SessionTrace([5, 0, 5, 0, 0, 1, 0, 0, 0, 0, 0, 0], Some(path), true, Completed, [])
  {
    var path := directory + [SLASH] + host + [UNDERSCORE, 0x38, 0x30];
    var methods := [NO_AUTHENTICATION];
    var request := SocksRequest(COMMAND_CONNECT, DomainName(host), 80);
    ExampleWire(host);
    var wire := EncodeRequest(request, 0);
    assert Greeting(methods) == [SOCKS_VERSION5, 1, 0];
    assert chunks == [Greeting(methods)] + [wire];
    HelloWholeGreeting(methods, [wire]);
    SingleChunkRequest(request, 0);
    ExampleBackendPath(directory, host);
    ExampleHostAccepted(host);
    AcceptedBytes();
    assert Session(directory, chunks, {path}) == AfterHello(directory, HelloOk(methods), [wire], {path});
    assert Respond(directory, request, {path}) == Response(REP_SUCCEEDED, Some(path), true);
  }

  /** The greeting `[5, 1, 2]` split after its header. As written, the proxy
      selects "no authentication", which the client never offered, and then
      waits for a request; with the corrected parser it refuses with `[5, 255]`. */
  lemma SplitGreetingSession(directory: seq<Byte>, chunks: seq<Chunk>, listening: set<seq<Byte>>)
    requires chunks == [[SOCKS_VERSION5, 1], [2]]
    ensures Session(directory, chunks, listening) == SessionTrace([5, 0], None, false, Failed(EndOfStream), [])
    ensures IntendedSession(directory, chunks, listening).written == [5, 255]
  {
    SplitGreetingMisread();
    HelloHeaderAloneReadsZeros(1, [[2]]);
    assert chunks == [[SOCKS_VERSION5, 1]] + [[2]];
    assert AsMethods(Zeros(1)) == [NO_AUTHENTICATION];
    var tail: seq<Chunk> := [[2]];
    var d := Receive(tail, REQUEST_BUFFER_SIZE);
    assert d == Delivery([2], []);
    RequestLoopTurn([], tail, d, RequestDecide([] + [2]));
    assert RequestLoop([2], []) == RequestRun(RequestFailed(EndOfStream), [2], []);
    MethodSelection(directory, HelloOk([AuthenticationMethod(2)]), IntendedHelloLoop([], chunks).rest, listening);
  }

  /** A greeting offering all 255 methods, method 0 among them: as written the
      connection panics before anything is written; with the corrected parser
      the proxy selects "no authentication". */
  lemma FullGreetingSession(directory: seq<Byte>, methods: seq<AuthenticationMethod>, extra: seq<Byte>,
                            chunks: seq<Chunk>, listening: set<seq<Byte>>)
    requires |methods| == 255 && NO_AUTHENTICATION in methods
    requires Flatten(chunks) == Greeting(methods) + extra
    ensures Session(directory, chunks, listening).outcome == Panicked
    ensures Session(directory, chunks, listening).written == []
    ensures var written := IntendedSession(directory, chunks, listening).written;
            |written| >= 2 && written[..2] == [SOCKS_VERSION5, 0]
  {
    FullGreetingPanics(methods, extra, chunks);
    MethodSelection(directory, HelloOk(methods), IntendedHelloLoop([], chunks).rest, listening);
  }
}
