# soxidizer SOCKS5 front end in Dafny

soxidizer is a SOCKS5 proxy that publishes local services. A client names a
host and a port. The proxy forwards the connection to the Unix socket
`<directory>/<host>_<port>` when something listens there. This project models
the proxy's front end and proves properties of the model:

- the two incremental wire parsers of `src/socks.rs`. `read_client_hello`
  handles method negotiation (section 3 of RFC 1928). `read_socks_request`
  handles requests (section 4 of RFC 1928). Each fills a zero-initialised
  fixed buffer through successive reads;
- the per-connection decision chain of `serve_socks` in `src/main.rs`. It
  covers the method reply, the checks on command, address type and host name,
  the ten-byte reply of `send_reply` (section 6 of RFC 1928), and the backend
  path `directory.join("{domain}_{port}")`;
- admission through the uid allow-list (`check_allowed_socket`, `get_uid`);
- inherited listeners under systemd socket activation
  (`handle_socket_activation`, `from_raw_fd`).

The client connection is a `ClientSocket` object. It holds the chunks the peer
has still to deliver and the bytes written back so far. A read into a buffer
with `space` bytes of room takes `min(|chunk|, space)` bytes of the next
chunk. No chunks left means end of stream. Each parser is an imperative
method over an `array` of 256 or 512 bytes. It is proved equal to a recursive
specification (`HelloLoop`, `RequestLoop`) over the bytes received so far and
the chunks still pending. The lemmas about that specification quantify over
every way the peer may split its bytes.

`serve_socks` is the method `Proxy.ServeSocks`. It is proved to produce the
trace `Proxy.Session` gives: the bytes written, the backend path a connect
was tried on, whether the relay was entered, how the connection ended, and
the input left unread. Two things are inputs, not I/O:

- whether a backend socket accepts a connection is the set `listening`;
- the relay is the flag `relayed`.

Module layout:

| file | module | contents |
|---|---|---|
| bytes.dfy | `Bytes` | octets, `Option`, zero fill, chunk concatenation |
| stream.dfy | `Stream` | `Receive` and the `ClientSocket` class |
| utf8.dfy | `Utf8` | well-formed UTF-8, the test `str::from_utf8` applies |
| decimal.dfy | `Decimal` | `{}` formatting and `parse::<u32>` of decimal text |
| socks.dfy | `Socks` | wire types, constants, both parsers |
| socks_properties.dfy | `SocksProperties` | what the parsers promise |
| socks_intended.dfy | `SocksIntended` | the greeting parser with its two defects corrected |
| paths.dfy | `Paths` | host-name filter, socket file name, `Path::join` |
| proxy.dfy | `Proxy` | `send_reply`, `serve_socks` and its trace |
| session_properties.dfy | `SessionProperties` | what one connection writes, tries and relays |
| admission.dfy | `Admission` | `get_uid`, `check_allowed_socket`, accepted connections |
| activation.dfy | `Activation` | socket-activation descriptor range and family classification |

### Behaviour worth knowing

The model follows the code in each of these cases.

- An unacceptable host name gets reply 2 ("connection not allowed by
  ruleset"), not 1 ("general failure"). Source: `src/main.rs:178-182`.
- Every connect error gets reply 4 ("host unreachable"). Refused (5) and
  other failures (1) are never sent. Source: `src/main.rs:186-193`.
- A greeting without method 0 is answered `[5, 255]`, the "no acceptable
  methods" reply of section 3 of RFC 1928. Source: `src/main.rs:144-149`.
- A version mismatch in the greeting or the request closes the connection
  without a reply.
- The empty host name is accepted. The filter only rejects `/`, `\`, `:` and
  NUL. Source: `src/main.rs:126-131`.
- Admission checks an optional allow-list of uids. Without a list every
  connection is served, and TCP connections never have a uid.
  Source: `src/main.rs:61-104`.

## Model

| member | source | states |
|---|---|---|
| Bytes.Padded | src/socks.rs:49 | A zero-initialised buffer whose first bytes are those received: its size, its received prefix, zeros elsewhere |
| Stream.Receive | src/socks.rs:52 | One read takes at most `space` bytes. It delivers nothing exactly at end of stream. Delivered bytes plus what stays pending are the whole remaining stream |
| Stream.ClientSocket.Read | src/socks.rs:52-56 | `read(&mut buffer[total_read..])` fills `buffer[from..from+n]` with the delivered bytes. It returns `n`, leaves the rest of the buffer and the written bytes untouched, and advances the pending chunks |
| Stream.ClientSocket.WriteAll | src/main.rs:146-147 | `write_all` appends its bytes to what the peer receives and consumes no input |
| Utf8.IsUtf8 | src/socks.rs:160 | The acceptance test of `str::from_utf8`: the well-formed byte sequences of Table 3-7 of the Unicode Standard. `AsciiIsUtf8` and `RequestDecideCases` state its use |
| Utf8.AsciiIsUtf8 | src/socks.rs:160 | Every ASCII byte string passes the UTF-8 test on domain names |
| Decimal.Format | src/main.rs:184 | The `{}` text of a number: non-empty decimal digits, no leading zero except for 0, denoting the number |
| Decimal.ParseU32 | src/main.rs:345-356 | `parse::<u32>` succeeds iff the text after an optional `+` is one or more digits whose value is at most 2^32-1, and then returns that value |
| Decimal.ParseU32RejectsEmpty | src/main.rs:347 | The empty text and a lone `+` fail to parse |
| Decimal.ParseU32Rejects | src/main.rs:347 | Any text with a non-digit after the optional `+` fails to parse |
| Decimal.CanonicalIsFormat | src/main.rs:184 | Digits without a leading zero (other than "0") are the `{}` text of their value |
| Decimal.ParsedCanonicalIsFormat | src/main.rs:345-356 | Conversely to the round trip: an accepted text without `+` or leading zero is the `{}` text of the value it parses to |
| Decimal.ParseFormatRoundTrip | src/main.rs:347 | The decimal text of every `u32` parses back to it |
| Decimal.FormatInjective | src/main.rs:184 | Distinct ports have distinct decimal texts |
| Socks.AuthenticationMethod.ToU8 | src/socks.rs:15-20 | The wire byte of a method rebuilds the same method |
| Socks.SocksCommand.ToU8 | src/socks.rs:35-41 | The wire byte of a command rebuilds the same command |
| Socks.CommandName | src/socks.rs:95-105 | Each of "CONNECT", "BIND", "UDP_ASSOCIATE" is returned iff the command is 1, 2, 3, and "?" iff it is none of them |
| Socks.AsMethods | src/socks.rs:69 | The methods are the slice's bytes, one per byte, in order |
| Socks.PortFromBytes | src/socks.rs:189 | `u16::from_be_bytes`: the high byte is the port divided by 256, the low byte the remainder |
| Socks.EncodeRequest | src/socks.rs:131 | Every well-formed request encodes to 7 to 262 bytes, so it fits the 512-byte buffer |
| Socks.HelloDecide | src/socks.rs:57-70 | The test after each read of `read_client_hello`: keep reading, fail on the version, panic on the slice, or return the methods from the zero-filled buffer. Its cases are stated by `HelloDecideCases` |
| Socks.HelloLoop | src/socks.rs:51-72 | The read loop of `read_client_hello` over the client's chunks: reads into the free part of the 256-byte buffer, fails at end of stream or a full buffer, and stops where `HelloDecide` returns. `ReadClientHello` is proved to follow it |
| Socks.HelloDecideCases | src/socks.rs:57-70 | After each read the greeting parser keeps reading iff fewer than 2 bytes are in or more than `count + 2`. It fails iff the version is not 5. It panics iff the count is 255. Otherwise it returns exactly `count` methods from positions 2.., with unreceived ones read as 0 |
| Socks.HelloRunGrows | src/socks.rs:51-56 | The greeting loop only appends to the buffer and loses no byte: what it read plus what remains is what was sent |
| Socks.HelloRunEnds | src/socks.rs:51-72 | The greeting loop ends at end of stream with nothing left, on a full buffer, or on the decision for exactly what it read |
| Socks.CheckHello | src/socks.rs:57-70 | The tests on the array after a read compute `HelloDecide` of the bytes received |
| Socks.HelloPass | src/socks.rs:52-70 | One loop body: a read into the free part of the buffer, then the tests. It is one step of `HelloLoop` and keeps the unreceived part of the buffer zero |
| Socks.ReadClientHello | src/socks.rs:46-73 | `read_client_hello` returns `HelloLoop` on the pending input, leaves the stream where the loop leaves it and writes nothing |
| Socks.RequestDecide | src/socks.rs:139-195 | The test after each read of `read_socks_request`: keep reading, fail, or return the parsed request. Its cases are stated by `RequestDecideCases` and `RequestDecideOk` |
| Socks.RequestLoop | src/socks.rs:133-197 | The read loop of `read_socks_request` over the client's chunks: reads into the free part of the 512-byte buffer, fails at end of stream or a full buffer, and stops where `RequestDecide` returns. `ReadSocksRequest` is proved to follow it |
| Socks.RequestDecideCases | src/socks.rs:139-189 | Nothing is decided before 7 bytes. After that a version other than 5 fails, and so does an address type other than 1, 3, 4. A domain name of length `L` waits iff fewer than `7 + L` bytes are in, then fails iff bytes `5..5+L` are not UTF-8 and otherwise gives that name and the big-endian port from bytes `5+L`, `6+L`. IPv4 waits iff fewer than 10 bytes are in, IPv6 iff fewer than 22, then give bytes `4..8` / `4..20` and the port after them. The command byte is passed through |
| Socks.RequestDecideOk | src/socks.rs:143-195 | A returned request has version 5 on the wire and the command byte passed through. It is well-formed, and re-encoded with the reserved byte received it is a prefix of what was received |
| Socks.RequestRunGrows | src/socks.rs:133-138 | The request loop only appends to the buffer and loses no byte |
| Socks.RequestRunEnds | src/socks.rs:133-197 | The request loop ends at end of stream with nothing left, on a full buffer, or on the decision for exactly what it read |
| Socks.CheckRequest | src/socks.rs:139-195 | The tests on the array after a read compute `RequestDecide` of the bytes received |
| Socks.RequestPass | src/socks.rs:134-195 | One loop body: a read, then the tests. It is one step of `RequestLoop` |
| Socks.ReadSocksRequest | src/socks.rs:128-198 | `read_socks_request` returns `RequestLoop` on the pending input, leaves the stream where the loop leaves it and writes nothing |
| SocksProperties.HelloFromStart | src/socks.rs:46-73 | What the greeting parser read is a prefix of the stream. The result is the decision on exactly that, unless the stream ended (all of it read, undecided) or the buffer filled |
| SocksProperties.HelloUnsupportedVersion | src/socks.rs:57-63 | Once 2 bytes have arrived, a first byte other than 5 fails in any chunking |
| SocksProperties.HelloCount255Panics | src/socks.rs:49-68 | A declared count of 255 makes the slice end past the 256-byte buffer, in any chunking |
| SocksProperties.HelloOkShape | src/socks.rs:57-70 | A parsed greeting has exactly `buffer[1]` (at most 254) methods, in order from position 2 of a prefix of the stream of 2 to `count + 2` bytes. Methods not received read as 0 |
| SocksProperties.HelloWholeGreeting | src/socks.rs:46-73 | A greeting of up to 254 methods arriving as one read returns its own methods and leaves the rest unread |
| SocksProperties.HelloHeaderAloneReadsZeros | src/socks.rs:49-70 | A header `[5, n]` arriving alone is answered at once with `n` zero methods |
| SocksProperties.HelloOverReadWaits | src/socks.rs:65-66 | A greeting followed in the same read by more bytes, and nothing after, ends at end of stream instead of being parsed |
| SocksProperties.RequestPrefixWaits | src/socks.rs:139-179 | Every strict prefix of an encoded request leaves the parser waiting |
| SocksProperties.RequestCompleteDecides | src/socks.rs:143-195 | Once a whole encoded request is in, followed by anything, the parser returns that request |
| SocksProperties.RequestLoopFinds | src/socks.rs:133-195 | Any chunking of a stream starting with an encoded request leads the loop to that request |
| SocksProperties.RequestRoundTrip | src/socks.rs:128-198 | A well-formed request with any command and reserved byte, in any chunking and followed by anything, parses back to the same command, address and port |
| SocksProperties.RequestFromStart | src/socks.rs:128-198 | What the request parser read is a prefix of the stream. The result is the decision on exactly that, unless the stream ended (all read, undecided) or the buffer filled |
| SocksProperties.RequestOkIsEncoded | src/socks.rs:143-195 | A returned request is well-formed, and re-encoded with the reserved byte sent it is a prefix of the stream |
| SocksProperties.DecidedRequestIsEncoded | src/socks.rs:143-195 | The same for a decision taken on any prefix of the stream |
| SocksProperties.RequestLongestDecides | src/socks.rs:154-187 | Any 262 bytes settle a request |
| SocksProperties.RequestLoopNeverExhausts | src/socks.rs:133-197 | From an undecided prefix shorter than 262 bytes, the loop never fills the buffer |
| SocksProperties.RequestBufferNeverExhausted | src/socks.rs:197 | The error after the request loop is unreachable |
| SocksProperties.RequestUnsupportedVersion | src/socks.rs:148-150 | Once 7 bytes have arrived, a first byte other than 5 fails in any chunking |
| SocksProperties.RequestUnknownAddressType | src/socks.rs:185-187 | Once 7 bytes have arrived with version 5, an address type other than 1, 3, 4 fails in any chunking |
| SocksProperties.RequestInvalidDomainEncoding | src/socks.rs:154-164 | Once a whole domain-name request has arrived with version 5, a name that is not UTF-8 fails in any chunking |
| SocksProperties.RequestReservedIgnored | src/socks.rs:145 | Changing the reserved byte never changes the decision |
| SocksIntended.IntendedPrefixWaits | src/socks.rs:64-67 | The corrected parser waits on every strict prefix of a greeting |
| SocksIntended.IntendedCompleteDecides | src/socks.rs:64-70 | The corrected parser returns the greeting's methods once the whole greeting is in |
| SocksIntended.IntendedHelloFinds | src/socks.rs:51-70 | Any chunking of a stream starting with a greeting leads the corrected loop to its methods |
| SocksIntended.IntendedHelloRoundTrip | src/socks.rs:46-73 | A greeting of up to 255 methods, in any chunking and followed by anything, yields exactly its methods |
| SocksIntended.SplitGreetingMisread | src/socks.rs:64-67 | `[5, 1]` then `[2]`: as written the methods are `[0]`, corrected they are `[2]` |
| SocksIntended.FullGreetingPanics | src/socks.rs:49-68 | A greeting of 255 methods: as written it panics, corrected it yields the 255 methods |
| Paths.IsAcceptableHostname | src/main.rs:126-131 | `is_acceptable_hostname` on the name's bytes. `AcceptableHostnameBytes` states it byte by byte |
| Paths.AcceptableHostnameBytes | src/main.rs:126-131 | `is_acceptable_hostname` holds iff no byte is `/`, `\`, `:` or NUL. The empty name is accepted |
| Paths.HostNamesAcceptable | src/main.rs:126-131 | Every name of letters, digits, `-` and `.` is accepted |
| Paths.FileName | src/main.rs:184 | `format!("{}_{}", requested_domain, request.port)`: the domain, `_`, then the port in decimal. `FileNameSplit` and `FileNameInjective` state how it reads back |
| Paths.Join | src/main.rs:185 | `Path::join` on Unix: an absolute name replaces the directory, otherwise the name is appended after one `/`. `BackendPathIsDirectChild` and `NestedNamesMeetSlash` state its effect |
| Paths.FileNameSplit | src/main.rs:184 | In `"{domain}_{port}"` the `_` follows the domain and the port text after it has no `_` and no leading zero |
| Paths.FileNameInjective | src/main.rs:184 | Distinct (domain, port) pairs give distinct file names |
| Paths.BackendPathIsDirectChild | src/main.rs:178-185 | For an accepted host name the file name has no `/` and is not `.` or `..`. The joined path is that name directly under the directory |
| Paths.NestedNamesMeetSlash | src/main.rs:185 | Two names ending the same path, the shorter right after a `/`: the longer contains that `/` |
| Paths.BackendPathInjective | src/main.rs:178-185 | Distinct (domain, port) pairs with accepted names reach distinct backend sockets |
| Proxy.MethodReply | src/main.rs:144-152 | The method-selection message is two bytes, version 5 then the chosen method |
| Proxy.Reply | src/main.rs:111-122 | The reply is ten bytes whose second is the code |
| Proxy.ReplyLayout | src/main.rs:111-122 | The reply is the RFC 1928 layout of a request with the code in the command slot, an IPv4 0.0.0.0 address and port 0, and it parses back as such |
| Proxy.Judge | src/main.rs:163-182 | The three checks on a parsed request in the program's order: reply 7 unless CONNECT, reply 8 unless a domain name, reply 2 unless the name is acceptable, otherwise a connect to the backend path |
| Proxy.Respond | src/main.rs:163-193 | The answer to a parsed request: the refusal `Judge` chose, or the connect with reply 0 and the relay when the path listens and reply 4 otherwise. `AnswerRequest` is proved to follow it |
| Proxy.SendReply | src/main.rs:107-124 | `send_reply` appends exactly `Reply(code)` to what the client receives and reads nothing |
| Proxy.Session | src/main.rs:137-202 | One connection as a trace: the greeting loop, then `AfterHello` on its result. `ServeSocks` is proved to follow it and the `SessionProperties` lemmas state what it writes |
| Proxy.ServeSocks | src/main.rs:133-202 | `serve_socks` writes `Session(...).written` and reports its outcome, connect attempt and relay. It leaves the unread input the trace names |
| Proxy.AfterHello | src/main.rs:144-202 | What follows the greeting: nothing on a failed greeting, `[5, 255]` without method 0, otherwise `[5, 0]`, the request loop and then the reply `Respond` gives |
| Proxy.ServeAfterHello | src/main.rs:144-202 | The rest of `serve_socks` follows `AfterHello` for the greeting's result |
| Proxy.AnswerRequest | src/main.rs:163-200 | The checks on a parsed request write exactly one reply, with the code, connect attempt and relay of `Respond` |
| SessionProperties.MethodSelection | src/main.rs:137-152 | Nothing is written iff the greeting failed. `[5, 255]` is written iff method 0 is missing, and then no request is read. `[5, 0]` comes first iff method 0 is offered. A panic happens only when the greeting parser panics |
| SessionProperties.OneReplyAtMost | src/main.rs:144-200 | The client receives nothing, `[5, 255]`, `[5, 0]`, or `[5, 0]` followed by one ten-byte reply |
| SessionProperties.DecisionOrder | src/main.rs:163-198 | A reply is sent iff method 0 was offered and a request parsed. Its code is 7 iff the command is not CONNECT, 8 iff it is CONNECT to an IP address, 2 iff it is CONNECT to an unacceptable name, 4 iff the backend refused, 0 iff the relay is entered |
| SessionProperties.ConnectOnlyWhenChecksPass | src/main.rs:163-186 | A connect is tried iff all three checks pass, on `directory.join("{domain}_{port}")`, a direct child of the directory |
| SessionProperties.RelayOnlyWhenAccepted | src/main.rs:186-200 | The relay is entered iff the backend accepted, iff the client received exactly `[5, 0]` and reply 0 |
| SessionProperties.HappyPath | src/main.rs:133-202 | A greeting offering method 0, then a CONNECT to an acceptable name in any chunking, gets `[5, 0]` and reply 0 with relay if the backend listens, otherwise reply 4 |
| SessionProperties.SingleChunkRequest | src/socks.rs:128-198 | A request arriving as one read is decided on that read with nothing left |
| SessionProperties.ExampleBackendPath | src/main.rs:184-185 | `myapp.foo:80` under `/tmp/pub` maps to `/tmp/pub/myapp.foo_80` |
| SessionProperties.ExampleHostAccepted | src/main.rs:126-131 | `myapp.foo` is UTF-8 and passes the host-name filter |
| SessionProperties.ExampleWire | src/socks.rs:154-189 | The CONNECT request for `myapp.foo:80` has the wire form `05 01 00 03 09 myapp.foo 00 50` |
| SessionProperties.AcceptedBytes | src/main.rs:151-198 | The method reply for "no authentication" followed by reply 0 is `05 00 05 00 00 01 00 00 00 00 00 00` |
| SessionProperties.ExampleSession | src/main.rs:133-202 | The example connection writes `[5, 0]` and reply 0 and relays to `/tmp/pub/myapp.foo_80` when it listens |
| SessionProperties.SplitGreetingSession | src/socks.rs:64-70 | `[5, 1]` then `[2]`: as written the proxy selects method 0, which was never offered, and then fails at end of stream. Corrected, it answers `[5, 255]` |
| SessionProperties.FullGreetingSession | src/socks.rs:49-68 | A greeting of 255 methods including 0: as written the connection panics before writing anything. Corrected, it answers `[5, 0]` |
| Admission.GetUid | src/main.rs:55-65 | A Unix stream yields its peer credentials, if readable. A TCP stream always fails |
| Admission.CheckAllowedSocket | src/main.rs:96-104 | `check_allowed_socket`: true without an allow-list, otherwise iff the uid can be read and is listed. `AdmissionRule` states it case by case |
| Admission.AdmissionRule | src/main.rs:61-104 | With no allow-list every connection is served. With one, exactly those whose uid is readable and listed, so never a TCP connection |
| Admission.HandleAccepted | src/main.rs:250-258 | A rejected connection is neither read nor written. An admitted one follows `Session` |
| Activation.Classify | src/main.rs:333 | The family test in `from_raw_fd`: TCP for AF_INET and AF_INET6, Unix for any other value. `ClassifyFamilies` states both directions |
| Activation.ClassifyFamilies | src/main.rs:333-341 | A descriptor becomes a TCP listener iff its family is AF_INET or AF_INET6. A failed family query (0) gives a Unix listener |
| Activation.FromRawFd | src/main.rs:322-342 | A listener results iff adoption succeeds, of the kind the family selects |
| Activation.ActivationEnabled | src/main.rs:345-351 | The `LISTEN_PID` gate: activation applies iff the variable is set, parses as `u32` and equals the own pid. `NoActivationWithoutPid` states its effect |
| Activation.FdCount | src/main.rs:353-356 | `LISTEN_FDS` parsed as `u32`, or 0 when unset or unparseable. When it parses, the count is the parsed value |
| Activation.RangeEnd | src/main.rs:360 | `3 + fd_count` in `u32`, wrapping modulo 2^32 as a release build does. `DescriptorsFromThree` and `WrappedCountTakesNothing` state both sides of the wrap |
| Activation.ToRawFd | src/main.rs:363 | `fd as RawFd` lies in the `i32` range and reads back as the same `u32` |
| Activation.ListenRange | src/main.rs:360-363 | The range `3..end`, each descriptor converted by `fd as RawFd`. `ListenRangeValues` states its length and elements |
| Activation.ListenRangeValues | src/main.rs:360 | The range `3..end` has `end - 3` descriptors (none when `end <= 3`). The `i`-th is `3 + i` converted by `fd as RawFd`, which is `3 + i` itself up to `i32::MAX` |
| Activation.Descriptors | src/main.rs:345-360 | The descriptors the loop visits: none unless `LISTEN_PID` parses and matches, otherwise the range `3..3 + fd_count` with wrap-around. `NoActivationWithoutPid`, `DescriptorsFromThree` and `WrappedCountTakesNothing` state its value |
| Activation.NoActivationWithoutPid | src/main.rs:345-351 | Without a `LISTEN_PID` that parses and equals the own pid, no descriptor is taken |
| Activation.DescriptorsFromThree | src/main.rs:353-360 | With a matching pid and `n` descriptors, the descriptors are 3, ..., 2 + n |
| Activation.WrappedCountTakesNothing | src/main.rs:360 | A count of 2^32-3 or more wraps `3 + fd_count` below 3, so no descriptor is taken |
| Activation.AdoptAll | src/main.rs:360-381 | The loop over the descriptors, stopping at the first that cannot be adopted (`listeners?`). `AdoptAllStopsAtFailure` states its result |
| Activation.AdoptAllStopsAtFailure | src/main.rs:360-381 | The listeners are the descriptors before the first that cannot be adopted, in order, each classified by family. The loop fails iff such a descriptor exists |
| Activation.AdoptAllStep | src/main.rs:360-381 | One more turn of the loop: the next descriptor either ends the adoption with a failure, or its listener follows those adopted so far |
| Activation.HandleSocketActivation | src/main.rs:344-384 | `handle_socket_activation` takes exactly the listeners `AdoptAll` gives for the descriptor range, and fails as it does |
| Activation.AdoptRange | src/main.rs:360-381 | The loop over `3..end` adopts exactly as `AdoptAll` on that range |

## Left out

- I/O errors of `read`, `write_all` and `send_reply` are not modelled. A read either delivers bytes or reports end of stream, and writes always succeed. The `?` paths that return such errors are absent.
- The relay `copy_bidirectional` (`src/main.rs:200`) is the flag `relayed`. Its duplex copying and half-close are concurrent I/O.
- `UnixStream::connect` (`src/main.rs:186`) is membership of the path in the input set `listening`. Every connect error leads to reply 4, so no error kind is needed.
- The accept loops, `tokio::select!`, cancellation, task tracking, spawning and shutdown (`src/main.rs:238-292`, `src/main.rs:386-421`) are concurrency. `Admission.HandleAccepted` models one accepted connection.
- Binding listeners, removing stale socket files, the command line and `make_service` (`src/main.rs:215-236`, `src/main.rs:294-315`) rely on OS calls and foreign parsers.
- Logging and the `Display` impls (`src/socks.rs:107-126`) only format text. `CommandName` models `get_command_name`, which they call.
- src/net.rs is not part of this model. It wraps tokio types and is not compiled into the program.
- `peer_cred`, `getsockopt`, `set_nonblocking` and `from_std` are inputs: the credentials, the reported family and whether adoption succeeds.
- The process id and the variables `LISTEN_PID` and `LISTEN_FDS` are parameters, each an optional byte string. `LISTEN_FDNAMES` is ignored by the program too.
- A variable that is not valid Unicode makes `env::var` fail, which the program treats like an unset one. The model takes bytes and leaves the Unicode check out. A non-Unicode value cannot parse as a number anyway.
- Activation.RangeEnd: `3 + fd_count` wraps modulo 2^32 as in a release build. A debug build panics on the overflow instead; that is not modelled.
- The parsers report all failures as `ErrorKind::Other`. The model's `ReadError` keeps the causes apart so they can be stated; nothing outside the parsers looks at the cause.
- A domain name is kept as its UTF-8 bytes, not as Unicode text, and `is_acceptable_hostname` is stated on bytes. On UTF-8 the two agree, because the four rejected characters are ASCII.
- `Proxy.Session` models the greeting parser as written, with both defects under "Findings". `Proxy.IntendedSession` runs the same session on the corrected parser. All session lemmas stated over `Proxy.AfterHello` hold for both.
- The directory from the command line is a byte string. `Path::join` is modelled as on Unix: an absolute name replaces the directory, and otherwise `/` is inserted unless the directory is empty or already ends in `/`.

## Findings

| source | as written | input that shows it | evidently intended | confidence | as-written member | corrected member |
|---|---|---|---|---|---|---|
| src/socks.rs:64-67 | `read_client_hello` keeps reading only while `method_count + 2 < total_read`. So it returns as soon as 2 bytes are in and stops waiting for the declared methods; methods not yet received read as the buffer's zeros, i.e. as "no authentication" | The greeting `05 01 02` delivered as `05 01` then `02`: the parser returns the method list `[0]`, the proxy answers `05 00` although only method 2 was offered, then reads `02` as the start of a request | Keep reading while `total_read < method_count + 2`, and return exactly the declared methods | not executed | SocksIntended.SplitGreetingMisread, SocksProperties.HelloHeaderAloneReadsZeros, SessionProperties.SplitGreetingSession | SocksIntended.IntendedHelloRoundTrip, Proxy.IntendedSession |
| src/socks.rs:49-68 | The greeting buffer has 256 bytes, but a count of 255 makes the slice `buffer[2..257]`, which panics | A greeting `05 FF` followed by 255 method bytes, which RFC 1928 allows: the task serving the connection panics before anything is written | A 257-byte buffer, enough for 255 methods | not executed | SocksProperties.HelloCount255Panics, SocksIntended.FullGreetingPanics, SessionProperties.FullGreetingSession | SocksIntended.IntendedHelloRoundTrip, Proxy.IntendedSession |
