/** What the two SOCKS5 parsers promise, over every way the peer may split its
    bytes into reads. `F` below is always `Flatten(chunks)`, everything the peer
    sends. */
module SocksProperties {
  import opened Bytes
  import opened Utf8
  import opened Stream
  import opened Socks

  // ---------------------------------------------------------------------------
  // Greeting

  /** The greeting loop started on an empty buffer: what it read is a prefix of
      the stream, and its result is the decision on exactly that, unless the
      stream or the buffer ran out first. */
  lemma HelloFromStart(chunks: seq<Chunk>)
    ensures var run := HelloLoop([], chunks);
      && IsPrefix(run.received, Flatten(chunks)) && |run.received| <= HELLO_BUFFER_SIZE
      && (run.result == HelloFailed(EndOfStream) ==>
            run.received == Flatten(chunks) && HelloDecide(run.received) == HelloNeedMore)
      && (run.result == HelloFailed(BufferExhausted) ==>
            |run.received| == HELLO_BUFFER_SIZE && HelloDecide(run.received) == HelloNeedMore)
      && (run.result != HelloFailed(EndOfStream) && run.result != HelloFailed(BufferExhausted) ==>
            HelloDecide(run.received) == HelloDone(run.result))
  {
    var run := HelloLoop([], chunks);
    HelloRunGrows([], chunks);
    HelloRunEnds([], chunks);
    assert [] + Flatten(chunks) == Flatten(chunks);
    SplitPrefix(Flatten(chunks), run.received, Flatten(run.rest));
  }

  /** Once two bytes have arrived, a first byte other than 5 is an error. */
  lemma HelloUnsupportedVersion(chunks: seq<Chunk>)
    requires |Flatten(chunks)| >= 2 && Flatten(chunks)[0] != SOCKS_VERSION5
    ensures HelloLoop([], chunks).result == HelloFailed(UnsupportedVersion)
  {
    var run := HelloLoop([], chunks);
    HelloFromStart(chunks);
    HelloDecideCases(run.received);
    assert |run.received| >= 2;
    assert run.received[0] == Flatten(chunks)[..|run.received|][0];
  }

  /** A declared count of 255 makes the method slice end at 257, past the
      256-byte buffer, whatever else arrives. */
  lemma HelloCount255Panics(chunks: seq<Chunk>)
    requires |Flatten(chunks)| >= 2
    requires Flatten(chunks)[0] == SOCKS_VERSION5 && Flatten(chunks)[1] == 255
    ensures HelloLoop([], chunks).result == HelloPanicked
  {
    var run := HelloLoop([], chunks);
    HelloFromStart(chunks);
    HelloDecideCases(run.received);
    assert |run.received| >= 2;
    assert run.received[0] == Flatten(chunks)[..|run.received|][0];
    assert run.received[1] == Flatten(chunks)[..|run.received|][1];
  }

  /** A successful greeting returns exactly `buffer[1]` methods, taken in order
      from positions 2.. of what was received; declared methods that had not
      arrived when the parser returned read as 0. What was received is a prefix
      of the stream, at least 2 and at most `count + 2` bytes long. */
  lemma HelloOkShape(chunks: seq<Chunk>)
    ensures var run := HelloLoop([], chunks);
            run.result.HelloOk? ==>
            var received, methods := run.received, run.result.methods;
            && IsPrefix(received, Flatten(chunks))
            && 2 <= |received| <= |methods| + 2
            && received[0] == SOCKS_VERSION5
            && |methods| == received[1] <= 254
            && (forall i :: 0 <= i < |methods| ==>
                  methods[i].raw == if 2 + i < |received| then received[2 + i] else 0)
  {
    var run := HelloLoop([], chunks);
    HelloFromStart(chunks);
    if run.result.HelloOk? {
      HelloDecideCases(run.received);
    }
  }

  /** A greeting that arrives as one read by itself returns its own methods and
      leaves the rest of the stream unread. */
  lemma HelloWholeGreeting(methods: seq<AuthenticationMethod>, rest: seq<Chunk>)
    requires |methods| <= 254
    ensures |Greeting(methods)| > 0
    ensures HelloLoop([], [Greeting(methods)] + rest) == HelloRun(HelloOk(methods), Greeting(methods), rest)
  {
    var greeting := Greeting(methods);
    var chunks: seq<Chunk> := [greeting] + rest;
    assert chunks[1..] == rest;
    var d := Receive(chunks, HELLO_BUFFER_SIZE);
    assert d == Delivery(greeting, rest);
    assert [] + greeting == greeting;
    var slice := Padded(greeting, HELLO_BUFFER_SIZE)[2..|methods| + 2];
    assert slice == MethodBytes(methods);
    assert AsMethods(slice) == methods;
  }

  /** The parser returns as soon as the first two bytes are in, when the count
      is not yet exceeded: a greeting whose header `[5, n]` arrives alone comes
      back as `n` zero methods, that is, as if "no authentication" were offered. */
  lemma HelloHeaderAloneReadsZeros(n: Byte, rest: seq<Chunk>)
    requires n <= 254
    ensures HelloLoop([], [[SOCKS_VERSION5, n]] + rest) == HelloRun(HelloOk(AsMethods(Zeros(n))), [SOCKS_VERSION5, n], rest)
  {
    var chunks: seq<Chunk> := [[SOCKS_VERSION5, n]] + rest;
    assert chunks[1..] == rest;
    assert [] + [SOCKS_VERSION5, n] == [SOCKS_VERSION5, n];
    assert Padded([SOCKS_VERSION5, n], HELLO_BUFFER_SIZE)[2..n + 2] == Zeros(n);
  }

  /** If more than `count + 2` bytes are in, the parser keeps reading: a greeting
      sent together with further bytes in one read, with nothing after it, ends at
      end of stream instead of being answered. */
  lemma HelloOverReadWaits(methods: seq<AuthenticationMethod>, extra: seq<Byte>)
    requires |methods| <= 254 && extra != [] && |Greeting(methods)| + |extra| < HELLO_BUFFER_SIZE
    ensures HelloLoop([], [Greeting(methods) + extra]).result == HelloFailed(EndOfStream)
  {
    var first := Greeting(methods) + extra;
    var chunks: seq<Chunk> := [first];
    var d := Receive(chunks, HELLO_BUFFER_SIZE);
    assert d == Delivery(first, []);
    assert [] + first == first;
    HelloDecideCases(first);
  }

  // ---------------------------------------------------------------------------
  // Request

  /** Every strict prefix of an encoded request leaves the parser waiting. */
  lemma RequestPrefixWaits(request: SocksRequest, reserved: Byte, k: nat)
    requires WellFormedRequest(request) && k < |EncodeRequest(request, reserved)|
    ensures RequestDecide(EncodeRequest(request, reserved)[..k]) == RequestNeedMore
  {
  }

  /** Once a whole encoded request is in, followed by anything, the parser
      returns that request. */
  lemma RequestCompleteDecides(request: SocksRequest, reserved: Byte, received: seq<Byte>)
    requires WellFormedRequest(request) && |received| <= REQUEST_BUFFER_SIZE
    requires IsPrefix(EncodeRequest(request, reserved), received)
    ensures RequestDecide(received) == RequestDone(RequestOk(request))
  {
    var wire := EncodeRequest(request, reserved);
    assert received[..|wire|] == wire;
    match request.address
    case DomainName(name) =>
      DomainRequestDecides(request, reserved, received);
    case IpAddress(V4(octets)) =>
      assert received[4..8] == wire[4..8] == octets;
    case IpAddress(V6(octets)) =>
      assert received[4..20] == wire[4..20] == octets;
  }

  /** The domain-name case of `RequestCompleteDecides`. */
  lemma DomainRequestDecides(request: SocksRequest, reserved: Byte, received: seq<Byte>)
    requires WellFormedRequest(request) && request.address.DomainName? && |received| <= REQUEST_BUFFER_SIZE
    requires IsPrefix(EncodeRequest(request, reserved), received)
    ensures RequestDecide(received) == RequestDone(RequestOk(request))
  {
    var wire := EncodeRequest(request, reserved);
    var name := request.address.name;
    var length := |name|;
    var head := [SOCKS_VERSION5, request.command.raw, reserved, ADDRESS_TYPE_DOMAINNAME, length];
    assert wire == head + name + PortBytes(request.port);
    assert received[..|wire|] == wire;
    assert wire[5..5 + length] == name;
    assert received[4] == received[..|wire|][4] == length;
    assert received[5..5 + length] == name by {
      forall k | 0 <= k < length ensures received[5..5 + length][k] == name[k] {
        assert received[5 + k] == received[..|wire|][5 + k] == wire[5 + k];
      }
    }
    assert received[5 + length] == received[..|wire|][5 + length] == request.port / 0x100;
    assert received[6 + length] == received[..|wire|][6 + length] == request.port % 0x100;
  }

  lemma {:induction false} RequestLoopFinds(request: SocksRequest, reserved: Byte, received: seq<Byte>, chunks: seq<Chunk>)
    requires WellFormedRequest(request)
    requires |received| < |EncodeRequest(request, reserved)|
    requires IsPrefix(EncodeRequest(request, reserved), received + Flatten(chunks))
    requires RequestDecide(received) == RequestNeedMore
    ensures RequestLoop(received, chunks).result == RequestOk(request)
    decreases REQUEST_BUFFER_SIZE - |received|
  {
    var wire := EncodeRequest(request, reserved);
    var all := received + Flatten(chunks);
    assert chunks != [];
    var d := Receive(chunks, REQUEST_BUFFER_SIZE - |received|);
    var total := received + d.data;
    assert total + Flatten(d.rest) == all;
    assert all[..|total|] == total;
    if |total| < |wire| {
      assert total == wire[..|total|];
      RequestPrefixWaits(request, reserved, |total|);
      RequestLoopFinds(request, reserved, total, d.rest);
    } else {
      assert total[..|wire|] == wire;
      RequestCompleteDecides(request, reserved, total);
    }
  }

  /** Round trip: a well-formed request, with any reserved byte and any command,
      delivered in any chunking and followed by anything, parses back to the same
      command, address and port. */
  lemma RequestRoundTrip(request: SocksRequest, reserved: Byte, extra: seq<Byte>, chunks: seq<Chunk>)
    requires WellFormedRequest(request)
    requires Flatten(chunks) == EncodeRequest(request, reserved) + extra
    ensures RequestLoop([], chunks).result == RequestOk(request)
  {
    var wire := EncodeRequest(request, reserved);
    assert ([] + Flatten(chunks))[..|wire|] == wire;
    RequestLoopFinds(request, reserved, [], chunks);
  }

  /** The request loop started on an empty buffer: what it read is a prefix of
      the stream, and its result is the decision on exactly that, unless the
      stream or the buffer ran out first. */
  lemma RequestFromStart(chunks: seq<Chunk>)
    ensures var run := RequestLoop([], chunks);
      && IsPrefix(run.received, Flatten(chunks)) && |run.received| <= REQUEST_BUFFER_SIZE
      && (run.result == RequestFailed(EndOfStream) ==>
            run.received == Flatten(chunks) && RequestDecide(run.received) == RequestNeedMore)
      && (run.result == RequestFailed(BufferExhausted) ==>
            |run.received| == REQUEST_BUFFER_SIZE && RequestDecide(run.received) == RequestNeedMore)
      && (run.result != RequestFailed(EndOfStream) && run.result != RequestFailed(BufferExhausted) ==>
            RequestDecide(run.received) == RequestDone(run.result))
  {
    var run := RequestLoop([], chunks);
    RequestRunGrows([], chunks);
    RequestRunEnds([], chunks);
    assert [] + Flatten(chunks) == Flatten(chunks);
    SplitPrefix(Flatten(chunks), run.received, Flatten(run.rest));
  }

  /** Conversely, a request that is returned is well-formed and, re-encoded with
      the reserved byte that arrived, is a prefix of the stream. */
  lemma RequestOkIsEncoded(chunks: seq<Chunk>)
    ensures var result := RequestLoop([], chunks).result;
            result.RequestOk? ==>
            && |Flatten(chunks)| >= 7
            && WellFormedRequest(result.request)
            && IsPrefix(EncodeRequest(result.request, Flatten(chunks)[2]), Flatten(chunks))
  {
    var run := RequestLoop([], chunks);
    RequestFromStart(chunks);
    if run.result.RequestOk? {
      DecidedRequestIsEncoded(run.received, Flatten(chunks));
    }
  }

  lemma DecidedRequestIsEncoded(received: seq<Byte>, all: seq<Byte>)
    requires |received| <= REQUEST_BUFFER_SIZE && IsPrefix(received, all)
    requires RequestDecide(received).RequestDone? && RequestDecide(received).result.RequestOk?
    ensures var request := RequestDecide(received).result.request;
            && |all| >= 7
            && WellFormedRequest(request)
            && IsPrefix(EncodeRequest(request, all[2]), all)
  {
    RequestDecideOk(received);
    var wire := EncodeRequest(RequestDecide(received).result.request, received[2]);
    assert received[2] == all[..|received|][2];
    PrefixTransitive(wire, received, all);
  }

  /** Any 262 bytes settle a request: the longest request is 262 bytes. */
  lemma RequestLongestDecides(received: seq<Byte>)
    requires 262 <= |received| <= REQUEST_BUFFER_SIZE
    ensures RequestDecide(received) != RequestNeedMore
  {
  }

  lemma {:induction false} RequestLoopNeverExhausts(received: seq<Byte>, chunks: seq<Chunk>)
    requires |received| < 262 && RequestDecide(received) == RequestNeedMore
    ensures RequestLoop(received, chunks).result != RequestFailed(BufferExhausted)
    decreases REQUEST_BUFFER_SIZE - |received|
  {
    var d := Receive(chunks, REQUEST_BUFFER_SIZE - |received|);
    if |d.data| > 0 {
      var total := received + d.data;
      if RequestDecide(total) == RequestNeedMore {
        if |total| >= 262 {
          RequestLongestDecides(total);
        }
        RequestLoopNeverExhausts(total, d.rest);
      }
    }
  }

  /** The fall-through error after the loop of `read_socks_request` is
      unreachable: the 512-byte buffer never fills without a decision. */
  lemma RequestBufferNeverExhausted(chunks: seq<Chunk>)
    ensures RequestLoop([], chunks).result != RequestFailed(BufferExhausted)
  {
    RequestLoopNeverExhausts([], chunks);
  }

  /** Once seven bytes have arrived, a first byte other than 5 is an error. */
  lemma RequestUnsupportedVersion(chunks: seq<Chunk>)
    requires |Flatten(chunks)| >= 7 && Flatten(chunks)[0] != SOCKS_VERSION5
    ensures RequestLoop([], chunks).result == RequestFailed(UnsupportedVersion)
  {
    var run := RequestLoop([], chunks);
    RequestFromStart(chunks);
    RequestDecideCases(run.received);
    RequestBufferNeverExhausted(chunks);
    assert |run.received| >= 7;
    assert run.received[..7] == Flatten(chunks)[..|run.received|][..7];
  }

  /** Once seven bytes have arrived, an address type other than 1, 3 and 4 is an
      error. */
  lemma RequestUnknownAddressType(chunks: seq<Chunk>)
    requires |Flatten(chunks)| >= 7 && Flatten(chunks)[0] == SOCKS_VERSION5
    requires Flatten(chunks)[3] !in {ADDRESS_TYPE_V4, ADDRESS_TYPE_DOMAINNAME, ADDRESS_TYPE_V6}
    ensures RequestLoop([], chunks).result == RequestFailed(UnsupportedAddressType)
  {
    var run := RequestLoop([], chunks);
    RequestFromStart(chunks);
    RequestDecideCases(run.received);
    RequestBufferNeverExhausted(chunks);
    assert |run.received| >= 7;
    assert run.received[..7] == Flatten(chunks)[..|run.received|][..7];
  }

  /** Once a whole domain-name request has arrived (seven bytes plus the length
      in byte 4), a name that is not UTF-8 is an error. */
  lemma RequestInvalidDomainEncoding(chunks: seq<Chunk>)
    requires |Flatten(chunks)| >= 7 && Flatten(chunks)[0] == SOCKS_VERSION5
    requires Flatten(chunks)[3] == ADDRESS_TYPE_DOMAINNAME
    requires |Flatten(chunks)| >= Flatten(chunks)[4] as int + 7
    requires !IsUtf8(Flatten(chunks)[5..5 + Flatten(chunks)[4]])
    ensures RequestLoop([], chunks).result == RequestFailed(InvalidDomainEncoding)
  {
    var run := RequestLoop([], chunks);
    RequestFromStart(chunks);
    RequestBufferNeverExhausted(chunks);
    BadDomainPrefixDecides(Flatten(chunks), run.received);
  }

  /** Every prefix of a domain-name request whose name is not UTF-8 either
      waits, being shorter than the whole request, or fails on the encoding. */
  lemma BadDomainPrefixDecides(all: seq<Byte>, received: seq<Byte>)
    requires |all| >= 7 && all[0] == SOCKS_VERSION5 && all[3] == ADDRESS_TYPE_DOMAINNAME
    requires |all| >= all[4] as int + 7 && !IsUtf8(all[5..5 + all[4]])
    requires IsPrefix(received, all) && |received| <= REQUEST_BUFFER_SIZE
    ensures RequestDecide(received) == RequestNeedMore ==> |received| < |all|
    ensures RequestDecide(received).RequestDone? ==>
              RequestDecide(received).result == RequestFailed(InvalidDomainEncoding)
  {
    if |received| >= 7 {
      var length: nat := all[4];
      var front := all[..|received|];
      assert received == front;
      assert received[0] == front[0] == all[0];
      assert received[3] == front[3] == all[3];
      assert received[4] == front[4] == all[4];
      if |received| >= length + 7 {
        assert received[5..5 + length] == all[5..5 + length] by {
          forall k | 5 <= k < 5 + length ensures received[k] == all[k] {
            assert received[k] == front[k];
          }
        }
      }
    }
  }

  /** The reserved byte is never looked at. */
  lemma RequestReservedIgnored(received: seq<Byte>, reserved: Byte)
    requires 3 <= |received| <= REQUEST_BUFFER_SIZE
    ensures RequestDecide(received[2 := reserved]) == RequestDecide(received)
  {
    var other := received[2 := reserved];
    if |received| >= 7 {
      var length: nat := received[4];
      if |received| >= length + 7 {
        assert other[5..5 + length] == received[5..5 + length];
      }
    }
    if |received| >= 10 {
      assert other[4..8] == received[4..8];
    }
    if |received| >= 22 {
      assert other[4..20] == received[4..20];
    }
  }
}
