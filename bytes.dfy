/** Byte-level vocabulary shared by the whole model: octets, optional values,
    zero fill and the concatenation of the chunks a peer delivers. */
module Bytes {

  /** An octet, as Rust's `u8`. */
  type Byte = x: int | 0 <= x < 0x100

  /** A chunk that one `read` call can return: never empty (an empty read means end of stream). */
  type Chunk = s: seq<Byte> | |s| > 0 witness [0]

  datatype Option<+T> = None | Some(value: T)

  /** `n` zero bytes: what a zero-initialised buffer holds where nothing was received. */
  function Zeros(n: nat): (z: seq<Byte>)
    ensures |z| == n
    ensures forall i :: 0 <= i < n ==> z[i] == 0
  {
    seq(n, _ => 0)
  }

  /** The contents of a zero-initialised buffer of `size` bytes whose first `|s|` bytes are `s`. */
  function Padded(s: seq<Byte>, size: nat): (buffer: seq<Byte>)
    requires |s| <= size
    ensures |buffer| == size
    ensures buffer[..|s|] == s
    ensures forall i :: |s| <= i < size ==> buffer[i] == 0
  {
    s + Zeros(size - |s|)
  }

  /** All bytes of a sequence of chunks, in delivery order. */
  function Flatten(chunks: seq<Chunk>): seq<Byte>
  {
    if chunks == [] then [] else chunks[0] + Flatten(chunks[1..])
  }

  /** Whether `p` is a prefix of `s`. */
  predicate IsPrefix(p: seq<Byte>, s: seq<Byte>)
  {
    |p| <= |s| && s[..|p|] == p
  }

  /** The front part of a split is a prefix of the whole, and all of it when
      nothing is left behind. */
  lemma SplitPrefix(whole: seq<Byte>, front: seq<Byte>, back: seq<Byte>)
    requires whole == front + back
    ensures IsPrefix(front, whole)
    ensures back == [] ==> front == whole
  {
    assert whole[..|front|] == front;
  }

  lemma PrefixTransitive(a: seq<Byte>, b: seq<Byte>, c: seq<Byte>)
    requires IsPrefix(a, b) && IsPrefix(b, c)
    ensures IsPrefix(a, c)
  {
    assert c[..|a|] == c[..|b|][..|a|];
  }
}
