/** The greeting parser as evidently intended: keep reading while fewer than
    `count + 2` bytes are in, and make room for the longest greeting RFC 1928
    allows (255 methods, 257 bytes). Set against `Socks.HelloLoop`, which models
    the program as written. */
module SocksIntended {
  import opened Bytes
  import opened Stream
  import opened Socks
  import opened SocksProperties

  /** Two header bytes and up to 255 methods. */
  const INTENDED_HELLO_BUFFER_SIZE: nat := 257

  function IntendedHelloDecide(received: seq<Byte>): HelloStep
    requires |received| <= INTENDED_HELLO_BUFFER_SIZE
  {
    if |received| < 2 then HelloNeedMore
    else if received[0] != SOCKS_VERSION5 then HelloDone(HelloFailed(UnsupportedVersion))
    else
      var methodCount: nat := received[1];
      if |received| < methodCount + 2 then HelloNeedMore
      else HelloDone(HelloOk(AsMethods(received[2..methodCount + 2])))
  }

  function IntendedHelloLoop(received: seq<Byte>, chunks: seq<Chunk>): HelloRun
    requires |received| <= INTENDED_HELLO_BUFFER_SIZE
    decreases INTENDED_HELLO_BUFFER_SIZE - |received|
  {
    if |received| == INTENDED_HELLO_BUFFER_SIZE then HelloRun(HelloFailed(BufferExhausted), received, chunks)
    else
      var d := Receive(chunks, INTENDED_HELLO_BUFFER_SIZE - |received|);
      if |d.data| == 0 then HelloRun(HelloFailed(EndOfStream), received, d.rest)
      else
        var total := received + d.data;
        match IntendedHelloDecide(total)
        case HelloNeedMore => IntendedHelloLoop(total, d.rest)
        case HelloDone(result) => HelloRun(result, total, d.rest)
  }

  /** Every strict prefix of a greeting leaves the intended parser waiting. */
  lemma IntendedPrefixWaits(methods: seq<AuthenticationMethod>, k: nat)
    requires |methods| <= 255 && k < |Greeting(methods)|
    ensures IntendedHelloDecide(Greeting(methods)[..k]) == HelloNeedMore
  {
  }

  /** Once a whole greeting is in, followed by anything, the intended parser
      returns its methods. */
  lemma IntendedCompleteDecides(methods: seq<AuthenticationMethod>, received: seq<Byte>)
    requires |methods| <= 255 && |received| <= INTENDED_HELLO_BUFFER_SIZE
    requires IsPrefix(Greeting(methods), received)
    ensures IntendedHelloDecide(received) == HelloDone(HelloOk(methods))
  {
    var greeting := Greeting(methods);
    assert received[..|greeting|] == greeting;
    assert received[2..|methods| + 2] == greeting[2..] == MethodBytes(methods);
    assert AsMethods(MethodBytes(methods)) == methods;
  }

  lemma {:induction false} IntendedHelloFinds(methods: seq<AuthenticationMethod>, received: seq<Byte>, chunks: seq<Chunk>)
    requires |methods| <= 255
    requires |received| < |Greeting(methods)|
    requires IsPrefix(Greeting(methods), received + Flatten(chunks))
    requires IntendedHelloDecide(received) == HelloNeedMore
    ensures IntendedHelloLoop(received, chunks).result == HelloOk(methods)
    decreases INTENDED_HELLO_BUFFER_SIZE - |received|
  {
    var greeting := Greeting(methods);
    var all := received + Flatten(chunks);
    assert chunks != [];
    var d := Receive(chunks, INTENDED_HELLO_BUFFER_SIZE - |received|);
    var total := received + d.data;
    assert total + Flatten(d.rest) == all;
    assert all[..|total|] == total;
    if |total| < |greeting| {
      assert total == greeting[..|total|];
      IntendedPrefixWaits(methods, |total|);
      IntendedHelloFinds(methods, total, d.rest);
    } else {
      assert total[..|greeting|] == greeting;
      IntendedCompleteDecides(methods, total);
    }
  }

  /** Round trip: a greeting with up to 255 methods, delivered in any chunking
      and followed by anything, yields exactly its methods. */
  lemma IntendedHelloRoundTrip(methods: seq<AuthenticationMethod>, extra: seq<Byte>, chunks: seq<Chunk>)
    requires |methods| <= 255
    requires Flatten(chunks) == Greeting(methods) + extra
    ensures IntendedHelloLoop([], chunks).result == HelloOk(methods)
  {
    var greeting := Greeting(methods);
    assert ([] + Flatten(chunks))[..|greeting|] == greeting;
    IntendedHelloFinds(methods, [], chunks);
  }

  /** A one-method greeting whose method byte arrives in a second read: the
      program as written answers as if method 0 had been offered, the intended
      parser returns the method that was sent. */
  lemma SplitGreetingMisread()
    ensures HelloLoop([], [[SOCKS_VERSION5, 1], [2]]).result == HelloOk([NO_AUTHENTICATION])
    ensures IntendedHelloLoop([], [[SOCKS_VERSION5, 1], [2]]).result == HelloOk([AuthenticationMethod(2)])
  {
    var chunks: seq<Chunk> := [[SOCKS_VERSION5, 1], [2]];
    HelloHeaderAloneReadsZeros(1, [[2]]);
    assert AsMethods(Zeros(1)) == [NO_AUTHENTICATION];
    assert Flatten(chunks) == Greeting([AuthenticationMethod(2)]) + [] by {
      assert Flatten(chunks[1..]) == [2];
    }
    IntendedHelloRoundTrip([AuthenticationMethod(2)], [], chunks);
  }

  /** A greeting that offers all 255 method values: the program as written
      panics on it, the intended parser returns all 255 methods. */
  lemma FullGreetingPanics(methods: seq<AuthenticationMethod>, extra: seq<Byte>, chunks: seq<Chunk>)
    requires |methods| == 255
    requires Flatten(chunks) == Greeting(methods) + extra
    ensures HelloLoop([], chunks).result == HelloPanicked
    ensures IntendedHelloLoop([], chunks).result == HelloOk(methods)
  {
    HelloCount255Panics(chunks);
    IntendedHelloRoundTrip(methods, extra, chunks);
  }
}
