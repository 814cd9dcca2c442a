/** The client connection as the SOCKS front end sees it: bytes the peer will still
    deliver, chunk by chunk, and the bytes the proxy has written back so far. */
module Stream {
  import opened Bytes

  /** What one read with `space` bytes of room obtains, and what the peer still holds. */
  datatype Delivery = Delivery(data: seq<Byte>, rest: seq<Chunk>)

  /** One `read` into a buffer with `space` bytes of room: it takes `min(|chunk|, space)`
      bytes of the next chunk and leaves the remainder of that chunk pending. */
  function Receive(chunks: seq<Chunk>, space: nat): (d: Delivery)
    requires space > 0
    ensures |d.data| <= space
    ensures |d.data| == 0 <==> chunks == []
    ensures Flatten(chunks) == d.data + Flatten(d.rest)
  {
    if chunks == [] then Delivery([], [])
    else if |chunks[0]| <= space then Delivery(chunks[0], chunks[1..])
    else
      var rest := [chunks[0][space..]] + chunks[1..];
      assert rest[1..] == chunks[1..];
      assert chunks[0] == chunks[0][..space] + chunks[0][space..];
      Delivery(chunks[0][..space], rest)
  }

  class ClientSocket {
    /** Chunks the peer has yet to deliver; an empty sequence is end of stream. */
    var pending: seq<Chunk>
    /** Everything written to the peer, in order. */
    var written: seq<Byte>

    constructor (chunks: seq<Chunk>)
      ensures pending == chunks && written == []
    {
      pending := chunks;
      written := [];
    }

    /** `read(&mut buf[from..])`: fills a prefix of `buf[from..]` and returns its length
        (0 at end of stream); the rest of `buf` is untouched. */
    method Read(buf: array<Byte>, from: nat) returns (n: nat)
      requires from < buf.Length
      modifies this, buf
      ensures var d := Receive(old(pending), buf.Length - from);
              n == |d.data| && from + n <= buf.Length && buf[..from + n] == old(buf[..from]) + d.data && pending == d.rest
      ensures forall i :: from + n <= i < buf.Length ==> buf[i] == old(buf[i])
      ensures written == old(written)
    {
      var d := Receive(pending, buf.Length - from);
      n := |d.data|;
      forall i | 0 <= i < n {
        buf[from + i] := d.data[i];
      }
      assert buf[..from + n] == old(buf[..from]) + d.data;
      pending := d.rest;
    }

    /** `write_all`: the bytes are appended to what the peer receives. */
    method WriteAll(bytes: seq<Byte>)
      modifies this
      ensures written == old(written) + bytes && pending == old(pending)
    {
      written := written + bytes;
    }
  }
}
