/** The SOCKS5 wire parsers of section 3 (method negotiation) and section 4
    (requests) of RFC 1928, as the proxy implements them: each fills a
    zero-initialised fixed buffer through successive reads and decides as soon
    as the bytes received so far allow it. */
module Socks {
  import opened Bytes
  import opened Utf8
  import opened Stream

  type U16 = x: int | 0 <= x < 0x1_0000

  const SOCKS_VERSION5: Byte := 5

  datatype AuthenticationMethod = AuthenticationMethod(raw: Byte)
  {
    /** The method's byte on the wire. */
    function ToU8(): (b: Byte)
      ensures AuthenticationMethod(b) == this
    {
      raw
    }
  }

  datatype SocksCommand = SocksCommand(raw: Byte)
  {
    /** The command's byte on the wire. */
    function ToU8(): (b: Byte)
      ensures SocksCommand(b) == this
    {
      raw
    }
  }

  const COMMAND_CONNECT := SocksCommand(1)
  const COMMAND_BIND := SocksCommand(2)
  const COMMAND_UDP_ASSOCIATE := SocksCommand(3)

  const REP_SUCCEEDED: Byte := 0
  const REP_CONNECTION_NOT_ALLOWED: Byte := 2
  const REP_HOST_NOT_REACHABLE: Byte := 4
  const REP_COMMAND_NOT_SUPPORTED: Byte := 7
  const REP_ADDRESS_TYPE_NOT_SUPPORTED: Byte := 8

  const NO_AUTHENTICATION := AuthenticationMethod(0)
  const NO_ACCEPTABLE_AUTHENTICATION := AuthenticationMethod(255)

  /** The `AddressType` discriminants. */
  const ADDRESS_TYPE_V4: Byte := 1
  const ADDRESS_TYPE_DOMAINNAME: Byte := 3
  const ADDRESS_TYPE_V6: Byte := 4

  datatype IpAddr = V4(octets: seq<Byte>) | V6(octets: seq<Byte>)

  /** A domain name is kept as the UTF-8 bytes of the Rust `String`. */
  datatype SocksRequestAddress = IpAddress(ip: IpAddr) | DomainName(name: seq<Byte>)

  datatype SocksRequest = SocksRequest(command: SocksCommand, address: SocksRequestAddress, port: U16)

  /** Why a parser gave up. The program reports all of these as the same
      `ErrorKind::Other`; the model keeps them apart so they can be stated. */
  datatype ReadError =
    | EndOfStream             // a read returned 0 bytes before a decision
    | UnsupportedVersion      // first byte is not 5
    | UnsupportedAddressType  // address type other than 1, 3, 4
    | InvalidDomainEncoding   // domain name is not UTF-8
    | BufferExhausted         // the buffer filled up without a decision

  datatype HelloResult =
    | HelloOk(methods: seq<AuthenticationMethod>)
    | HelloFailed(error: ReadError)
    | HelloPanicked           // the slice `buffer[2..count + 2]` ran past the buffer

  datatype RequestResult = RequestOk(request: SocksRequest) | RequestFailed(error: ReadError)

  /** `get_command_name`. */
  function CommandName(command: SocksCommand): (name: string)
    ensures name == "CONNECT" <==> command == COMMAND_CONNECT
    ensures name == "BIND" <==> command == COMMAND_BIND
    ensures name == "UDP_ASSOCIATE" <==> command == COMMAND_UDP_ASSOCIATE
    ensures name == "?" <==> command.raw !in {1, 2, 3}
  {
    if command == COMMAND_CONNECT then "CONNECT"
    else if command == COMMAND_BIND then "BIND"
    else if command == COMMAND_UDP_ASSOCIATE then "UDP_ASSOCIATE"
    else "?"
  }

  function AsMethods(bytes: seq<Byte>): (methods: seq<AuthenticationMethod>)
    ensures |methods| == |bytes|
    ensures forall i :: 0 <= i < |bytes| ==> methods[i].raw == bytes[i]
  {
    seq(|bytes|, i requires 0 <= i < |bytes| => AuthenticationMethod(bytes[i]))
  }

  function MethodBytes(methods: seq<AuthenticationMethod>): (bytes: seq<Byte>)
    ensures |bytes| == |methods|
    ensures forall i :: 0 <= i < |methods| ==> bytes[i] == methods[i].raw
  {
    seq(|methods|, i requires 0 <= i < |methods| => methods[i].raw)
  }

  /** A client greeting: version 5, the method count, the methods. */
  function Greeting(methods: seq<AuthenticationMethod>): seq<Byte>
    requires |methods| <= 255
  {
    [SOCKS_VERSION5, |methods|] + MethodBytes(methods)
  }

  function PortFromBytes(high: Byte, low: Byte): (port: U16)
    ensures port / 0x100 == high && port % 0x100 == low
  {
    high * 0x100 + low
  }

  function PortBytes(port: U16): seq<Byte>
  {
    [port / 0x100, port % 0x100]
  }

  /** The requests that have a wire form: an IPv4 address has 4 octets, an IPv6
      address 16, a domain name at most 255 bytes of UTF-8. */
  predicate WellFormedRequest(request: SocksRequest)
  {
    match request.address
    case IpAddress(V4(octets)) => |octets| == 4
    case IpAddress(V6(octets)) => |octets| == 16
    case DomainName(name) => |name| <= 255 && IsUtf8(name)
  }

  /** The RFC 1928 request `VER CMD RSV ATYP DST.ADDR DST.PORT` for `request`. */
  function EncodeRequest(request: SocksRequest, reserved: Byte): (wire: seq<Byte>)
    requires WellFormedRequest(request)
    ensures 7 <= |wire| <= 262
  {
    var head := [SOCKS_VERSION5, request.command.raw, reserved];
    match request.address
    case IpAddress(V4(octets)) => head + [ADDRESS_TYPE_V4] + octets + PortBytes(request.port)
    case IpAddress(V6(octets)) => head + [ADDRESS_TYPE_V6] + octets + PortBytes(request.port)
    case DomainName(name) => head + [ADDRESS_TYPE_DOMAINNAME, |name|] + name + PortBytes(request.port)
  }

  // ---------------------------------------------------------------------------
  // Greeting (read_client_hello)

  const HELLO_BUFFER_SIZE: nat := 256

  datatype HelloStep = HelloNeedMore | HelloDone(result: HelloResult)

  /** What the greeting loop does once `received` (all bytes so far, the filled
      part of the zero-initialised buffer) is in: keep reading, or return. */
  function HelloDecide(received: seq<Byte>): HelloStep
    requires |received| <= HELLO_BUFFER_SIZE
  {
    if |received| < 2 then HelloNeedMore
    else if received[0] != SOCKS_VERSION5 then HelloDone(HelloFailed(UnsupportedVersion))
    else
      var methodCount := received[1];
      if methodCount + 2 < |received| then HelloNeedMore
      else if methodCount + 2 > HELLO_BUFFER_SIZE then HelloDone(HelloPanicked)
      else HelloDone(HelloOk(AsMethods(Padded(received, HELLO_BUFFER_SIZE)[2..methodCount + 2])))
  }

  /** The outcomes of one greeting test: keep reading while fewer than 2 bytes are
      in or more than `count + 2`; a version other than 5 is an error; a count of
      255 runs past the buffer; otherwise exactly `count` methods, the unreceived
      ones read as 0. */
  lemma HelloDecideCases(received: seq<Byte>)
    requires |received| <= HELLO_BUFFER_SIZE
    ensures HelloDecide(received) == HelloNeedMore <==>
              |received| < 2 || (received[0] == SOCKS_VERSION5 && received[1] + 2 < |received|)
    ensures HelloDecide(received) == HelloDone(HelloFailed(UnsupportedVersion)) <==>
              |received| >= 2 && received[0] != SOCKS_VERSION5
    ensures HelloDecide(received) == HelloDone(HelloPanicked) <==>
              |received| >= 2 && received[0] == SOCKS_VERSION5 && received[1] == 255
    ensures HelloDecide(received).HelloDone? ==>
              var result := HelloDecide(received).result;
              result.HelloOk? || result.HelloPanicked? || result == HelloFailed(UnsupportedVersion)
    ensures HelloDecide(received).HelloDone? && HelloDecide(received).result.HelloOk? ==>
              var methods := HelloDecide(received).result.methods;
              && received[0] == SOCKS_VERSION5
              && |methods| == received[1] <= 254
              && 2 <= |received| <= |methods| + 2
              && (forall i :: 0 <= i < |methods| ==>
                    methods[i].raw == if 2 + i < |received| then received[2 + i] else 0)
  {
  }

  /** One run of the greeting loop: its result, everything it read, what is left. */
  datatype HelloRun = HelloRun(result: HelloResult, received: seq<Byte>, rest: seq<Chunk>)

  /** The greeting loop from the point where `received` is in the buffer and
      `chunks` are still pending. */
  function HelloLoop(received: seq<Byte>, chunks: seq<Chunk>): HelloRun
    requires |received| <= HELLO_BUFFER_SIZE
    decreases HELLO_BUFFER_SIZE - |received|
  {
    if |received| == HELLO_BUFFER_SIZE then HelloRun(HelloFailed(BufferExhausted), received, chunks)
    else
      var d := Receive(chunks, HELLO_BUFFER_SIZE - |received|);
      if |d.data| == 0 then HelloRun(HelloFailed(EndOfStream), received, d.rest)
      else
        var total := received + d.data;
        match HelloDecide(total)
        case HelloNeedMore => HelloLoop(total, d.rest)
        case HelloDone(result) => HelloRun(result, total, d.rest)
  }

  /** One turn of the hello loop, spelled out: a read that delivered `d`,
      and the decision `step` taken on everything received after it. */
  lemma HelloLoopTurn(received: seq<Byte>, chunks: seq<Chunk>, d: Delivery, step: HelloStep)
    requires |received| < HELLO_BUFFER_SIZE
    requires d == Receive(chunks, HELLO_BUFFER_SIZE - |received|) && d.data != []
    requires step == HelloDecide(received + d.data)
    ensures step == HelloNeedMore ==> HelloLoop(received, chunks) == HelloLoop(received + d.data, d.rest)
    ensures step.HelloDone? ==> HelloLoop(received, chunks) == HelloRun(step.result, received + d.data, d.rest)
  {
  }

  /** The greeting loop only appends to what it has received and loses no byte:
      what it read followed by what is left is what was there to read. */
  lemma {:induction false} HelloRunGrows(received: seq<Byte>, chunks: seq<Chunk>)
    requires |received| <= HELLO_BUFFER_SIZE
    ensures var run := HelloLoop(received, chunks);
      && IsPrefix(received, run.received) && |run.received| <= HELLO_BUFFER_SIZE
      && received + Flatten(chunks) == run.received + Flatten(run.rest)
    decreases HELLO_BUFFER_SIZE - |received|
  {
    if |received| < HELLO_BUFFER_SIZE {
      var d := Receive(chunks, HELLO_BUFFER_SIZE - |received|);
      if |d.data| > 0 {
        var total := received + d.data;
        var step := HelloDecide(total);
        HelloLoopTurn(received, chunks, d, step);
        assert received + Flatten(chunks) == total + Flatten(d.rest);
        assert total[..|received|] == received;
        if step == HelloNeedMore {
          HelloRunGrows(total, d.rest);
          PrefixTransitive(received, total, HelloLoop(total, d.rest).received);
        }
      }
    }
  }

  /** The greeting loop ends on a decision taken on exactly what it read, at end
      of stream with nothing left, or with a full buffer; the decision itself
      never reports end of stream or a full buffer. */
  lemma {:induction false} HelloRunEnds(received: seq<Byte>, chunks: seq<Chunk>)
    requires |received| <= HELLO_BUFFER_SIZE && HelloDecide(received) == HelloNeedMore
    ensures var run := HelloLoop(received, chunks);
      && |run.received| <= HELLO_BUFFER_SIZE
      && (run.result == HelloFailed(EndOfStream) ==> run.rest == [] && HelloDecide(run.received) == HelloNeedMore)
      && (run.result == HelloFailed(BufferExhausted) ==>
            |run.received| == HELLO_BUFFER_SIZE && HelloDecide(run.received) == HelloNeedMore)
      && (run.result != HelloFailed(EndOfStream) && run.result != HelloFailed(BufferExhausted) ==>
            HelloDecide(run.received) == HelloDone(run.result))
    decreases HELLO_BUFFER_SIZE - |received|
  {
    if |received| < HELLO_BUFFER_SIZE {
      var d := Receive(chunks, HELLO_BUFFER_SIZE - |received|);
      if |d.data| > 0 {
        var total := received + d.data;
        var step := HelloDecide(total);
        HelloLoopTurn(received, chunks, d, step);
        if step == HelloNeedMore {
          HelloRunEnds(total, d.rest);
        } else {
          assert step.result != HelloFailed(EndOfStream) && step.result != HelloFailed(BufferExhausted);
        }
      }
    }
  }

  /** The tests of `read_client_hello` after each read, on the buffer, whose
      unreceived part is still zero. */
  method CheckHello(buffer: array<Byte>, totalRead: nat, ghost received: seq<Byte>) returns (step: HelloStep)
    requires buffer.Length == HELLO_BUFFER_SIZE && totalRead <= buffer.Length
    requires buffer[..totalRead] == received
    requires forall i :: totalRead <= i < buffer.Length ==> buffer[i] == 0
    ensures step == HelloDecide(received)
  {
    if totalRead < 2 {
      return HelloNeedMore;
    }
    var version := buffer[0];
    if version != SOCKS_VERSION5 {
      return HelloDone(HelloFailed(UnsupportedVersion));
    }
    var methodCount := buffer[1] as nat;
    if methodCount + 2 < totalRead {
      return HelloNeedMore;
    }
    if methodCount + 2 > buffer.Length {
      // `&buffer[2..(method_count + 2)]` panics: the slice ends past the buffer.
      return HelloDone(HelloPanicked);
    }
    var slice := buffer[2..methodCount + 2];
    ghost var padded := Padded(received, HELLO_BUFFER_SIZE);
    assert forall i :: 2 <= i < methodCount + 2 ==> buffer[i] == padded[i];
    assert slice == padded[2..methodCount + 2];
    return HelloDone(HelloOk(AsMethods(slice)));
  }

  /** One pass through the body of the `read_client_hello` loop: a read into the
      free part of the buffer, then the tests on everything received. */
  method HelloPass(socket: ClientSocket, buffer: array<Byte>, totalRead: nat, ghost received: seq<Byte>)
    returns (readCount: nat, step: HelloStep, ghost next: seq<Byte>)
    requires buffer.Length == HELLO_BUFFER_SIZE && totalRead < buffer.Length && buffer[..totalRead] == received
    requires forall i :: totalRead <= i < buffer.Length ==> buffer[i] == 0
    requires HelloDecide(received) == HelloNeedMore
    modifies socket, buffer
    ensures socket.written == old(socket.written)
    ensures readCount == 0 ==>
              HelloLoop(received, old(socket.pending)) == HelloRun(HelloFailed(EndOfStream), received, socket.pending)
    ensures readCount > 0 ==>
              && totalRead + readCount <= buffer.Length && buffer[..totalRead + readCount] == next
              && (forall i :: totalRead + readCount <= i < buffer.Length ==> buffer[i] == 0)
              && step == HelloDecide(next)
              && (step == HelloNeedMore ==> HelloLoop(received, old(socket.pending)) == HelloLoop(next, socket.pending))
              && (step.HelloDone? ==> HelloLoop(received, old(socket.pending)) == HelloRun(step.result, next, socket.pending))
  {
    ghost var d := Receive(socket.pending, HELLO_BUFFER_SIZE - |received|);
    readCount := socket.Read(buffer, totalRead);
    next := received + d.data;
    if readCount == 0 {
      return readCount, HelloNeedMore, next;
    }
    step := CheckHello(buffer, totalRead + readCount, next);
    HelloLoopTurn(received, old(socket.pending), d, step);
  }

  /** `read_client_hello`. */
  method ReadClientHello(socket: ClientSocket) returns (result: HelloResult)
    modifies socket
    ensures var run := HelloLoop([], old(socket.pending));
            result == run.result && socket.pending == run.rest
    ensures socket.written == old(socket.written)
  {
    var buffer := new Byte[HELLO_BUFFER_SIZE](_ => 0);
    var totalRead: nat := 0;
    ghost var received: seq<Byte> := [];
    ghost var run := HelloLoop(received, socket.pending);
    while totalRead < buffer.Length
      invariant totalRead <= buffer.Length && buffer[..totalRead] == received
      invariant forall i :: totalRead <= i < buffer.Length ==> buffer[i] == 0
      invariant HelloDecide(received) == HelloNeedMore
      invariant HelloLoop(received, socket.pending) == run
      invariant socket.written == old(socket.written)
      decreases buffer.Length - totalRead
    {
      var readCount, step, next := HelloPass(socket, buffer, totalRead, received);
      if readCount == 0 {
        return HelloFailed(EndOfStream);
      }
      totalRead := totalRead + readCount;
      received := next;
      if step.HelloNeedMore? {
        continue;
      }
      return step.result;
    }
    result := HelloFailed(BufferExhausted);
  }

  // ---------------------------------------------------------------------------
  // Request (read_socks_request)

  const REQUEST_BUFFER_SIZE: nat := 512

  datatype RequestStep = RequestNeedMore | RequestDone(result: RequestResult)

  /** What the request loop does once `received` is in: keep reading, or return. */
  function RequestDecide(received: seq<Byte>): RequestStep
    requires |received| <= REQUEST_BUFFER_SIZE
  {
    if |received| < 7 then RequestNeedMore
    else
      var version := received[0];
      var command := SocksCommand(received[1]);
      var atype := received[3];
      if version != SOCKS_VERSION5 then RequestDone(RequestFailed(UnsupportedVersion))
      else if atype == ADDRESS_TYPE_DOMAINNAME then
        var domainLength: nat := received[4];
        if |received| < domainLength + 7 then RequestNeedMore
        else
          var rawAddress := received[5..5 + domainLength];
          if !IsUtf8(rawAddress) then RequestDone(RequestFailed(InvalidDomainEncoding))
          else
            var port := PortFromBytes(received[5 + domainLength], received[6 + domainLength]);
            RequestDone(RequestOk(SocksRequest(command, DomainName(rawAddress), port)))
      else if atype == ADDRESS_TYPE_V4 then
        if |received| < 10 then RequestNeedMore
        else RequestDone(RequestOk(SocksRequest(command, IpAddress(V4(received[4..8])), PortFromBytes(received[8], received[9]))))
      else if atype == ADDRESS_TYPE_V6 then
        if |received| < 22 then RequestNeedMore
        else RequestDone(RequestOk(SocksRequest(command, IpAddress(V6(received[4..20])), PortFromBytes(received[20], received[21]))))
      else RequestDone(RequestFailed(UnsupportedAddressType))
  }

  /** The outcomes of one request test: nothing is decided before 7 bytes, and
      after that a version other than 5 and an unknown address type are errors.
      A domain name of length `L` (byte 4) waits for `7 + L` bytes, is bytes
      `5..5 + L`, must be UTF-8, and is followed by the big-endian port; an IPv4
      address waits for 10 bytes and an IPv6 address for 22, the address
      starting at byte 4 and the port following it. The command byte is passed
      through. */
  lemma RequestDecideCases(received: seq<Byte>)
    requires |received| <= REQUEST_BUFFER_SIZE
    ensures |received| < 7 ==> RequestDecide(received) == RequestNeedMore
    ensures |received| >= 7 && received[0] != SOCKS_VERSION5 ==>
              RequestDecide(received) == RequestDone(RequestFailed(UnsupportedVersion))
    ensures |received| >= 7 && received[0] == SOCKS_VERSION5 &&
            received[3] !in {ADDRESS_TYPE_V4, ADDRESS_TYPE_DOMAINNAME, ADDRESS_TYPE_V6} ==>
              RequestDecide(received) == RequestDone(RequestFailed(UnsupportedAddressType))
    ensures |received| >= 7 && received[0] == SOCKS_VERSION5 && received[3] == ADDRESS_TYPE_DOMAINNAME ==>
              var length: nat := received[4];
              && (RequestDecide(received) == RequestNeedMore <==> |received| < length + 7)
              && (|received| >= length + 7 && !IsUtf8(received[5..5 + length]) ==>
                    RequestDecide(received) == RequestDone(RequestFailed(InvalidDomainEncoding)))
              && (|received| >= length + 7 && IsUtf8(received[5..5 + length]) ==>
                    RequestDecide(received) == RequestDone(RequestOk(SocksRequest(
                      SocksCommand(received[1]), DomainName(received[5..5 + length]),
                      PortFromBytes(received[5 + length], received[6 + length])))))
    ensures |received| >= 7 && received[0] == SOCKS_VERSION5 && received[3] == ADDRESS_TYPE_V4 ==>
              && (RequestDecide(received) == RequestNeedMore <==> |received| < 10)
              && (|received| >= 10 ==>
                    RequestDecide(received) == RequestDone(RequestOk(SocksRequest(
                      SocksCommand(received[1]), IpAddress(V4(received[4..8])), PortFromBytes(received[8], received[9])))))
    ensures |received| >= 7 && received[0] == SOCKS_VERSION5 && received[3] == ADDRESS_TYPE_V6 ==>
              && (RequestDecide(received) == RequestNeedMore <==> |received| < 22)
              && (|received| >= 22 ==>
                    RequestDecide(received) == RequestDone(RequestOk(SocksRequest(
                      SocksCommand(received[1]), IpAddress(V6(received[4..20])), PortFromBytes(received[20], received[21])))))
  {
  }

  /** A request that one test returns is well-formed and, re-encoded with the
      reserved byte that came in, is a prefix of what was received; the command
      byte is passed through. */
  lemma RequestDecideOk(received: seq<Byte>)
    requires |received| <= REQUEST_BUFFER_SIZE
    requires RequestDecide(received).RequestDone? && RequestDecide(received).result.RequestOk?
    ensures var request := RequestDecide(received).result.request;
            && received[0] == SOCKS_VERSION5
            && request.command.raw == received[1]
            && WellFormedRequest(request)
            && IsPrefix(EncodeRequest(request, received[2]), received)
  {
    var request := RequestDecide(received).result.request;
    assert WellFormedRequest(request);
    var wire := EncodeRequest(request, received[2]);
    match request.address
    case DomainName(name) =>
      var length := |name|;
      assert wire == received[..length + 7];
    case IpAddress(V4(_)) =>
      assert wire == received[..10];
    case IpAddress(V6(_)) =>
      assert wire == received[..22];
  }

  datatype RequestRun = RequestRun(result: RequestResult, received: seq<Byte>, rest: seq<Chunk>)

  /** The request loop from the point where `received` is in the buffer and
      `chunks` are still pending. */
  function RequestLoop(received: seq<Byte>, chunks: seq<Chunk>): RequestRun
    requires |received| <= REQUEST_BUFFER_SIZE
    decreases REQUEST_BUFFER_SIZE - |received|
  {
    if |received| == REQUEST_BUFFER_SIZE then RequestRun(RequestFailed(BufferExhausted), received, chunks)
    else
      var d := Receive(chunks, REQUEST_BUFFER_SIZE - |received|);
      if |d.data| == 0 then RequestRun(RequestFailed(EndOfStream), received, d.rest)
      else
        var total := received + d.data;
        match RequestDecide(total)
        case RequestNeedMore => RequestLoop(total, d.rest)
        case RequestDone(result) => RequestRun(result, total, d.rest)
  }

  /** One turn of the request loop, spelled out: a read that delivered `d`,
      and the decision `step` taken on everything received after it. */
  lemma RequestLoopTurn(received: seq<Byte>, chunks: seq<Chunk>, d: Delivery, step: RequestStep)
    requires |received| < REQUEST_BUFFER_SIZE
    requires d == Receive(chunks, REQUEST_BUFFER_SIZE - |received|) && d.data != []
    requires step == RequestDecide(received + d.data)
    ensures step == RequestNeedMore ==> RequestLoop(received, chunks) == RequestLoop(received + d.data, d.rest)
    ensures step.RequestDone? ==> RequestLoop(received, chunks) == RequestRun(step.result, received + d.data, d.rest)
  {
  }

  /** The request loop only appends to what it has received and loses no byte:
      what it read followed by what is left is what was there to read. */
  lemma {:induction false} RequestRunGrows(received: seq<Byte>, chunks: seq<Chunk>)
    requires |received| <= REQUEST_BUFFER_SIZE
    ensures var run := RequestLoop(received, chunks);
      && IsPrefix(received, run.received) && |run.received| <= REQUEST_BUFFER_SIZE
      && received + Flatten(chunks) == run.received + Flatten(run.rest)
    decreases REQUEST_BUFFER_SIZE - |received|
  {
    if |received| < REQUEST_BUFFER_SIZE {
      var d := Receive(chunks, REQUEST_BUFFER_SIZE - |received|);
      if |d.data| > 0 {
        var total := received + d.data;
        var step := RequestDecide(total);
        RequestLoopTurn(received, chunks, d, step);
        assert received + Flatten(chunks) == total + Flatten(d.rest);
        assert total[..|received|] == received;
        if step == RequestNeedMore {
          RequestRunGrows(total, d.rest);
          PrefixTransitive(received, total, RequestLoop(total, d.rest).received);
        }
      }
    }
  }

  /** The request loop ends on a decision taken on exactly what it read, at end
      of stream with nothing left, or with a full buffer; the decision itself
      never reports end of stream or a full buffer. */
  lemma {:induction false} RequestRunEnds(received: seq<Byte>, chunks: seq<Chunk>)
    requires |received| <= REQUEST_BUFFER_SIZE && RequestDecide(received) == RequestNeedMore
    ensures var run := RequestLoop(received, chunks);
      && |run.received| <= REQUEST_BUFFER_SIZE
      && (run.result == RequestFailed(EndOfStream) ==> run.rest == [] && RequestDecide(run.received) == RequestNeedMore)
      && (run.result == RequestFailed(BufferExhausted) ==>
            |run.received| == REQUEST_BUFFER_SIZE && RequestDecide(run.received) == RequestNeedMore)
      && (run.result != RequestFailed(EndOfStream) && run.result != RequestFailed(BufferExhausted) ==>
            RequestDecide(run.received) == RequestDone(run.result))
    decreases REQUEST_BUFFER_SIZE - |received|
  {
    if |received| < REQUEST_BUFFER_SIZE {
      var d := Receive(chunks, REQUEST_BUFFER_SIZE - |received|);
      if |d.data| > 0 {
        var total := received + d.data;
        var step := RequestDecide(total);
        RequestLoopTurn(received, chunks, d, step);
        if step == RequestNeedMore {
          RequestRunEnds(total, d.rest);
        } else {
          assert step.result != RequestFailed(EndOfStream) && step.result != RequestFailed(BufferExhausted);
        }
      }
    }
  }

  /** The tests of `read_socks_request` after each read, on the buffer. */
  method CheckRequest(buffer: array<Byte>, totalRead: nat, ghost received: seq<Byte>) returns (step: RequestStep)
    requires buffer.Length == REQUEST_BUFFER_SIZE && totalRead <= buffer.Length
    requires buffer[..totalRead] == received
    ensures step == RequestDecide(received)
  {
    if totalRead < 7 {
      return RequestNeedMore;
    }
    var version := buffer[0];
    var command := SocksCommand(buffer[1]);
    var atype := buffer[3];
    if version != SOCKS_VERSION5 {
      return RequestDone(RequestFailed(UnsupportedVersion));
    }
    var requestAddress: SocksRequestAddress;
    var portOffset: nat;
    if atype == ADDRESS_TYPE_DOMAINNAME {
      var domainLength := buffer[4] as nat;
      if totalRead < domainLength + 7 {
        return RequestNeedMore;
      }
      var rawAddress := buffer[5..5 + domainLength];
      assert forall i :: 5 <= i < 5 + domainLength ==> buffer[i] == received[i];
      assert rawAddress == received[5..5 + domainLength];
      if !IsUtf8(rawAddress) {
        return RequestDone(RequestFailed(InvalidDomainEncoding));
      }
      requestAddress := DomainName(rawAddress);
      portOffset := 5 + domainLength;
    } else if atype == ADDRESS_TYPE_V4 {
      if totalRead < 10 {
        return RequestNeedMore;
      }
      requestAddress := IpAddress(V4(buffer[4..8]));
      assert buffer[4..8] == received[4..8];
      portOffset := 8;
    } else if atype == ADDRESS_TYPE_V6 {
      if totalRead < 22 {
        return RequestNeedMore;
      }
      requestAddress := IpAddress(V6(buffer[4..20]));
      assert buffer[4..20] == received[4..20];
      portOffset := 20;
    } else {
      return RequestDone(RequestFailed(UnsupportedAddressType));
    }
    var port := PortFromBytes(buffer[portOffset], buffer[portOffset + 1]);
    return RequestDone(RequestOk(SocksRequest(command, requestAddress, port)));
  }

  /** One pass through the body of the `read_socks_request` loop: a read into
      the free part of the buffer, then the tests on everything received. */
  method RequestPass(socket: ClientSocket, buffer: array<Byte>, totalRead: nat, ghost received: seq<Byte>)
    returns (readCount: nat, step: RequestStep, ghost next: seq<Byte>)
    requires buffer.Length == REQUEST_BUFFER_SIZE && totalRead < buffer.Length && buffer[..totalRead] == received
    requires RequestDecide(received) == RequestNeedMore
    modifies socket, buffer
    ensures socket.written == old(socket.written)
    ensures readCount == 0 ==>
              RequestLoop(received, old(socket.pending)) == RequestRun(RequestFailed(EndOfStream), received, socket.pending)
    ensures readCount > 0 ==>
              && totalRead + readCount <= buffer.Length && buffer[..totalRead + readCount] == next
              && step == RequestDecide(next)
              && (step == RequestNeedMore ==> RequestLoop(received, old(socket.pending)) == RequestLoop(next, socket.pending))
              && (step.RequestDone? ==> RequestLoop(received, old(socket.pending)) == RequestRun(step.result, next, socket.pending))
  {
    ghost var d := Receive(socket.pending, REQUEST_BUFFER_SIZE - |received|);
    readCount := socket.Read(buffer, totalRead);
    next := received + d.data;
    if readCount == 0 {
      return readCount, RequestNeedMore, next;
    }
    step := CheckRequest(buffer, totalRead + readCount, next);
    RequestLoopTurn(received, old(socket.pending), d, step);
  }

  /** `read_socks_request`. */
  method ReadSocksRequest(socket: ClientSocket) returns (result: RequestResult)
    modifies socket
    ensures var run := RequestLoop([], old(socket.pending));
            result == run.result && socket.pending == run.rest
    ensures socket.written == old(socket.written)
  {
    var buffer := new Byte[REQUEST_BUFFER_SIZE](_ => 0);
    var totalRead: nat := 0;
    ghost var received: seq<Byte> := [];
    ghost var run := RequestLoop(received, socket.pending);
    while totalRead < buffer.Length
      invariant totalRead <= buffer.Length && buffer[..totalRead] == received
      invariant RequestDecide(received) == RequestNeedMore
      invariant RequestLoop(received, socket.pending) == run
      invariant socket.written == old(socket.written)
      decreases buffer.Length - totalRead
    {
      var readCount, step, next := RequestPass(socket, buffer, totalRead, received);
      if readCount == 0 {
        return RequestFailed(EndOfStream);
      }
      totalRead := totalRead + readCount;
      received := next;
      if step.RequestNeedMore? {
        continue;
      }
      return step.result;
    }
    result := RequestFailed(BufferExhausted);
  }
}
