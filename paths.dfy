/** Where a request for `domain:port` is forwarded: the Unix socket
    `directory.join(format!("{}_{}", domain, port))`, with `Path::join` as on
    Unix and paths as byte strings. */
module Paths {
  import opened Bytes
  import opened Decimal

  const SLASH: Byte := 0x2F
  const BACKSLASH: Byte := 0x5C
  const COLON: Byte := 0x3A
  const NUL: Byte := 0x00
  const UNDERSCORE: Byte := 0x5F
  const DOT: Byte := 0x2E

  /** `is_acceptable_hostname`: no `/`, `\`, `:` or NUL. On UTF-8 text, testing
      for these ASCII characters and testing for their bytes agree. */
  predicate IsAcceptableHostname(address: seq<Byte>)
  {
    !(SLASH in address || BACKSLASH in address || COLON in address || NUL in address)
  }

  /** The filter byte by byte, both directions; the empty name passes. */
  lemma AcceptableHostnameBytes(address: seq<Byte>)
    ensures IsAcceptableHostname(address) <==>
              forall i :: 0 <= i < |address| ==> address[i] !in {SLASH, BACKSLASH, COLON, NUL}
    ensures IsAcceptableHostname([])
  {
    if !IsAcceptableHostname(address) {
      var b :| b in {SLASH, BACKSLASH, COLON, NUL} && b in address;
      var i :| 0 <= i < |address| && address[i] == b;
    }
  }

  /** A letter, digit, `-` or `.`: the characters of a conventional DNS name. */
  predicate IsHostNameByte(b: Byte)
  {
    0x61 <= b <= 0x7A || 0x41 <= b <= 0x5A || 0x30 <= b <= 0x39 || b == 0x2D || b == DOT
  }

  /** Every conventional DNS name passes the filter. */
  lemma HostNamesAcceptable(address: seq<Byte>)
    requires forall i :: 0 <= i < |address| ==> IsHostNameByte(address[i])
    ensures IsAcceptableHostname(address)
  {
    AcceptableHostnameBytes(address);
  }

  /** `format!("{}_{}", domain, port)`. */
  function FileName(domain: seq<Byte>, port: nat): seq<Byte>
  {
    domain + [UNDERSCORE] + Format(port)
  }

  /** `Path::join` on Unix: an absolute name replaces the directory; otherwise a
      `/` is inserted unless the directory is empty or already ends in one. */
  function Join(directory: seq<Byte>, name: seq<Byte>): seq<Byte>
  {
    if |name| > 0 && name[0] == SLASH then name
    else if directory == [] || directory[|directory| - 1] == SLASH then directory + name
    else directory + [SLASH] + name
  }

  /** The decimal port has no `_`, so the port text is what follows the last `_`
      of a file name, and the domain is what precedes it. */
  lemma FileNameSplit(domain: seq<Byte>, port: nat)
    ensures var name := FileName(domain, port);
            var text := Format(port);
            && name[|domain|] == UNDERSCORE
            && name[|domain| + 1..] == text
            && UNDERSCORE !in text
            && (text[0] == DIGIT_ZERO ==> text == [DIGIT_ZERO])
  {
    assert FileName(domain, port)[|domain| + 1..] == Format(port);
  }

  /** Distinct (domain, port) pairs give distinct file names. */
  lemma FileNameInjective(domain1: seq<Byte>, port1: nat, domain2: seq<Byte>, port2: nat)
    requires FileName(domain1, port1) == FileName(domain2, port2)
    ensures domain1 == domain2 && port1 == port2
  {
    var name := FileName(domain1, port1);
    var text1, text2 := Format(port1), Format(port2);
    FileNameSplit(domain1, port1);
    FileNameSplit(domain2, port2);
    assert |domain1| == |domain2|;
    assert text1 == name[|domain1| + 1..] == text2;
    FormatInjective(port1, port2);
    assert domain1 == name[..|domain1|] == domain2;
  }

  /** For an accepted host name the file name holds no `/`, is neither `.` nor
      `..`, and the joined path is that name directly under `directory`: what
      precedes it is the directory itself (when empty or ending in `/`) or the
      directory and one `/`. */
  lemma BackendPathIsDirectChild(directory: seq<Byte>, domain: seq<Byte>, port: nat)
    requires IsAcceptableHostname(domain)
    ensures var name := FileName(domain, port);
            var path := Join(directory, name);
            && SLASH !in name
            && name != [DOT] && name != [DOT, DOT]
            && |name| <= |path| && path[|path| - |name|..] == name
            && var parent := path[..|path| - |name|];
               (parent == directory || parent == directory + [SLASH])
               && (parent == [] || parent[|parent| - 1] == SLASH)
  {
    var name := FileName(domain, port);
    FileNameSplit(domain, port);
    assert name[|domain|] == UNDERSCORE;
    var path := Join(directory, name);
    assert path[|path| - |name|..] == name;
  }

  /** Two names that both end `path`, the shorter one right after a `/` (or at
      the start): the longer one then holds that `/`. */
  lemma NestedNamesMeetSlash(path: seq<Byte>, short: seq<Byte>, long: seq<Byte>)
    requires |short| < |long| <= |path|
    requires path[|path| - |short|..] == short && path[|path| - |long|..] == long
    requires var parent := path[..|path| - |short|]; parent == [] || parent[|parent| - 1] == SLASH
    ensures SLASH in long
  {
    var k := |path| - |short| - 1;
    assert path[k] == SLASH;
    assert long[k - (|path| - |long|)] == path[k];
  }

  /** Distinct (domain, port) pairs with accepted host names reach distinct
      backend sockets. */
  lemma BackendPathInjective(directory: seq<Byte>, domain1: seq<Byte>, port1: nat, domain2: seq<Byte>, port2: nat)
    requires IsAcceptableHostname(domain1) && IsAcceptableHostname(domain2)
    requires Join(directory, FileName(domain1, port1)) == Join(directory, FileName(domain2, port2))
    ensures domain1 == domain2 && port1 == port2
  {
    var name1, name2 := FileName(domain1, port1), FileName(domain2, port2);
    var path := Join(directory, name1);
    BackendPathIsDirectChild(directory, domain1, port1);
    BackendPathIsDirectChild(directory, domain2, port2);
    var parent1, parent2 := path[..|path| - |name1|], path[..|path| - |name2|];
    if |name1| < |name2| {
      NestedNamesMeetSlash(path, name1, name2);
    } else if |name2| < |name1| {
      NestedNamesMeetSlash(path, name2, name1);
    }
    assert name1 == path[|path| - |name1|..] == name2;
    FileNameInjective(domain1, port1, domain2, port2);
  }
}
