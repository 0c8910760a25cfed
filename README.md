# php-socket in Dafny

A model of the core of khooz/php-socket, a small PHP wrapper around the sockets extension.
It has three parts:

- **Address literals** (`src/Utilities/INETADDR.php`). Two anchored PCRE patterns decide which
  strings are IPv4 dotted quads (`IPV4ADDR`) and which are IPv6 text forms (`IPV6ADDR`). The
  file also names six well-known addresses and the two version tags. Each pattern is a
  predicate on strings, with one disjunct per regex alternative (module `InetAddrPatterns`).
  PCRE's `$` without the `D` modifier also matches just before a final `"\n"`; the model
  says so explicitly (`MatchesIpv4`, `MatchesIpv6`).
- **`InetAddr`** (`src/InetAddr.php`). The constructor resolves the host, classifies the
  resolved string, and range-checks the port. The resolver (`gethostbyname`) is a function
  parameter. Exceptions become an `Error` value in a `Result` (module `Inet`).
- **`Socket`** (`src/Socket.php`). The socket keeps:
  - an `InetAddr`;
  - a protocol and the socket type that goes with it;
  - an OS descriptor that is none, open or closed.

  The `socket_*` calls whose answer the source reads (`socket_create`, `socket_bind`,
  `socket_listen`, `socket_accept`, `socket_connect`) take their success, or their failure with
  an error number, as a parameter of the method that makes the call. The source ignores the
  answers of `socket_close`, `socket_set_block` and `socket_set_nonblock`, and the model takes
  none. A ghost trace `calls` records all eight kinds of call with their arguments (module
  `Sockets`).

How each part is stated:

- Each `Socket` operation that calls the OS or checks arguments in sequence has a
  specification function on a value view of the socket, `SocketState`, and the method's
  `ensures` equates its effect with that function:
  - `CreateStep`, `OpenStep`, `BindStep`, `ListenStep`, `ConnectStep` and `CloseStep` return a
    `Step`: the outcome, the new state and the calls made;
  - `SetProtocolStep`, `SetSockTypeStep` and `ProtocolGuard` return an outcome and a new state;
  - `NewState` (__construct) returns a `Result<SocketState>`;
  - accept is specified by three functions: `AcceptCalls` (the calls on the listening socket),
    `ChildState` (the lent socket) and `AcceptResult` (what accept returns). The single-field setters (`Socket.SetInetAddr`, `Socket.SetResource`,
  `InetAddr.SetAddress`, `InetAddr.SetPort`) state their new field values directly in their
  `ensures`.
- The lemmas state the guarantees of the source about those functions.
- The patterns are characterised against independent readings built on `explode`/`implode`
  (`Fields.Split`, `Fields.Join`). `DottedQuad` means four `.`-separated decimal octets.
  `EightGroups` means eight `:`-separated groups of 1–4 hex digits.

Files:

| file | module |
|---|---|
| `definitions.dfy` | `Definitions` |
| `errors.dfy` | `Errors` |
| `inetaddr_patterns.dfy` | `InetAddrPatterns` |
| `fields.dfy` | `Fields` |
| `pattern_facts.dfy` | `PatternFacts` |
| `inet_addr.dfy` | `Inet` |
| `socket.dfy` | `Sockets` |

## Model

| member | source | states |
|---|---|---|
| InetAddrPatterns.ANYv4 | src/Utilities/INETADDR.php:21 | the IPv4 any address "0.0.0.0" |
| InetAddrPatterns.BROADCASTv4 | src/Utilities/INETADDR.php:26 | the IPv4 broadcast address "255.255.255.255" |
| InetAddrPatterns.LOCALv4 | src/Utilities/INETADDR.php:31 | the IPv4 loopback address "127.0.0.1" |
| InetAddrPatterns.ANYv6 | src/Utilities/INETADDR.php:36 | the IPv6 any address "0:0:0:0:0:0:0:0" |
| InetAddrPatterns.BROADCASTv6 | src/Utilities/INETADDR.php:41 | the IPv6 all-nodes multicast address "FF02::1" |
| InetAddrPatterns.LOCALv6 | src/Utilities/INETADDR.php:46 | the IPv6 loopback address "::1" |
| InetAddrPatterns.IPv4 | src/Utilities/INETADDR.php:51 | the IPv4 version tag, AF_INET (2) |
| InetAddrPatterns.IPv6 | src/Utilities/INETADDR.php:56 | the IPv6 version tag, AF_INET6 (10) |
| InetAddrPatterns.Ipv4Seg | src/Utilities/INETADDR.php:63-64 | IPV4SEG as a language, one disjunct for `25[0-5]` and one for the optional lead and last digit; characterised by PatternFacts.OctetIff |
| InetAddrPatterns.MatchesIpv4 | src/Utilities/INETADDR.php:72-73 | preg_match with IPV4ADDR, with `$` also matching before a final newline; characterised by PatternFacts.MatchesIpv4Iff |
| InetAddrPatterns.Ipv6Seg | src/Utilities/INETADDR.php:81-82 | IPV6SEG as a language: one to four hex digits |
| InetAddrPatterns.MatchesIpv6 | src/Utilities/INETADDR.php:91-92 | preg_match with IPV6ADDR, the twelve alternatives in order, with the same reading of `$`; characterised by PatternFacts.UncompressedMatchIff and GroupsIff |
| PatternFacts.OctetIff | src/Utilities/INETADDR.php:63-64 | the octet sub-pattern accepts exactly 1–3 decimal digits of value at most 255, where a 3-digit run may not start with 0 |
| PatternFacts.LeadingZeroPairAccepted | src/Utilities/INETADDR.php:64 | every two-digit segment with a leading zero ("00"–"09") is accepted |
| PatternFacts.LeadingZeroTripleRejected | src/Utilities/INETADDR.php:64 | no three-character segment starting with 0 is accepted |
| PatternFacts.LargeValueRejected | src/Utilities/INETADDR.php:64 | no digit run of value 256 or more is accepted |
| PatternFacts.Ipv4LiteralIff | src/Utilities/INETADDR.php:73 | the body of IPV4ADDR accepts exactly four dot-separated decimal octets |
| PatternFacts.MatchesIpv4Iff | src/Utilities/INETADDR.php:73 | IPV4ADDR matches exactly a dotted quad, possibly followed by one final newline |
| PatternFacts.AnyIpv4Accepted | src/Utilities/INETADDR.php:21 | ANYv4 is matched by IPV4ADDR |
| PatternFacts.BroadcastIpv4Accepted | src/Utilities/INETADDR.php:26 | BROADCASTv4 is matched by IPV4ADDR |
| PatternFacts.LocalIpv4Accepted | src/Utilities/INETADDR.php:31 | LOCALv4 is matched by IPV4ADDR |
| PatternFacts.FullFormIff | src/Utilities/INETADDR.php:92 | the first alternative of IPV6ADDR accepts exactly eight colon-separated groups of 1–4 hex digits |
| PatternFacts.Ipv6Shapes | src/Utilities/INETADDR.php:92 | every string the body of IPV6ADDR accepts is the full form, the link-local form, or contains "::" |
| PatternFacts.UncompressedIff | src/Utilities/INETADDR.php:92 | with no "::" and no '%', the body of IPV6ADDR accepts exactly eight groups of 1–4 hex digits |
| PatternFacts.UncompressedMatchIff | src/Utilities/INETADDR.php:92 | with no "::", '%' or newline, IPV6ADDR matches exactly eight colon-separated groups of 1–4 hex digits |
| PatternFacts.GroupsIff | src/Utilities/INETADDR.php:92 | colon-joined hex runs match IPV6ADDR exactly when there are eight of them and none is longer than 4, so nine groups or a 5-digit group are rejected |
| PatternFacts.AnyIpv6Accepted | src/Utilities/INETADDR.php:36 | ANYv6 is matched by IPV6ADDR |
| PatternFacts.BroadcastIpv6Accepted | src/Utilities/INETADDR.php:41 | BROADCASTv6 is matched by IPV6ADDR |
| PatternFacts.LocalIpv6Accepted | src/Utilities/INETADDR.php:46 | LOCALv6 and "::" are matched by IPV6ADDR |
| PatternFacts.EmbeddedIpv4Accepted | src/Utilities/INETADDR.php:92 | for every q that IPV4ADDR matches, "::" + q, "::ffff:" + q and "::ffff:0:" + q are matched by IPV6ADDR |
| PatternFacts.UnmappedAccepted | src/Utilities/INETADDR.php:92 | "::" + q is matched by IPV6ADDR when q is matched by IPV4ADDR |
| PatternFacts.MappedAccepted | src/Utilities/INETADDR.php:92 | "::ffff:" + q is matched by IPV6ADDR when q is matched by IPV4ADDR |
| PatternFacts.MappedZeroAccepted | src/Utilities/INETADDR.php:92 | "::ffff:0:" + q is matched by IPV6ADDR when q is matched by IPV4ADDR |
| PatternFacts.LinkLocalAccepted | src/Utilities/INETADDR.php:92 | "fe80:" followed by at most four ":group" parts, "%" and a non-empty alphanumeric zone is matched by IPV6ADDR |
| PatternFacts.EmptyZoneRejected | src/Utilities/INETADDR.php:92 | no string ending in '%' is matched by IPV6ADDR, so the zone cannot be empty |
| PatternFacts.EmptyZoneExample | src/Utilities/INETADDR.php:92 | "fe80::1%" is rejected |
| PatternFacts.MatchesIpv6Colon | src/Utilities/INETADDR.php:92 | every match of IPV6ADDR contains ':' |
| PatternFacts.MatchesIpv4Colon | src/Utilities/INETADDR.php:73 | no match of IPV4ADDR contains ':' |
| PatternFacts.PatternsDisjoint | src/Utilities/INETADDR.php:73-92 | no string is matched by both patterns |
| Inet.Classify | src/InetAddr.php:58-70 | the version is IPv4 (AF_INET) or IPv6 (AF_INET6); the only error is InvalidAddress |
| Inet.ClassifyIff | src/InetAddr.php:58-70 | IPv4 exactly on matches of IPV4ADDR, IPv6 exactly on matches of IPV6ADDR, InvalidAddress exactly on strings matching neither |
| Inet.ClassifyDottedQuad | src/InetAddr.php:59-69 | IPv4 is given exactly to a dotted quad, possibly followed by one newline |
| Inet.Construct | src/InetAddr.php:181-186 | a constructed address has a resolved address, the version its pattern gives and a port in range |
| Inet.ConstructOk | src/InetAddr.php:56-92 | construction succeeds exactly when the resolved string matches a pattern and the port is in [1, 65535]; it stores the resolver's output, the port given and the version of the matching pattern |
| Inet.ConstructErrors | src/InetAddr.php:184-185 | the address is checked before the port: a bad address is InvalidAddress whatever the port, InvalidPort only comes with a good address |
| Inet.LiteralHostIpv4 | src/InetAddr.php:58-71 | a host that resolves to itself and is a dotted quad gives an IPv4 address holding that string |
| Inet.EndpointVersion | src/InetAddr.php:59-71 | a constructed address has version 2 or 10, and version 2 exactly when its address matches IPV4ADDR |
| Inet.InetAddr.SetAddress | src/InetAddr.php:56-74 | stores the resolver's output and the version of its pattern; on InvalidAddress neither address nor version changes |
| Inet.InetAddr.SetPort | src/InetAddr.php:84-92 | a port in [1, 65535] is stored unchanged; any other gives InvalidPort and leaves the port |
| Inet.InetAddr.GetAddress | src/InetAddr.php:99-102 | of a constructed address, a match of one of the two patterns |
| Inet.InetAddr.GetPort | src/InetAddr.php:109-112 | of a constructed address, a port in [1, 65535] |
| Inet.InetAddr.GetVersion | src/InetAddr.php:119-122 | of a constructed address, 2 or 10, and 2 exactly when the address matches IPV4ADDR |
| Inet.InetAddr.New | src/InetAddr.php:181-186 | the new object holds what Construct gives, or the error Construct gives |
| Sockets.Sol2Sock | src/Socket.php:61-65 | protocol to socket type: TCP to STREAM, UDP to DGRAM, ICMP to RAW |
| Sockets.Sock2Sol | src/Socket.php:72-76 | socket type to protocol: STREAM to TCP, DGRAM to UDP, RAW to ICMP |
| Sockets.KnownProtocols | src/Socket.php:115-124 | setProtocol's membership test accepts exactly TCP, UDP and ICMP, the keys of the protocol-to-type map |
| Sockets.KnownSockTypes | src/Socket.php:133-142 | setSockType's membership test accepts exactly STREAM, DGRAM and RAW, the keys of the type-to-protocol map |
| Sockets.MapsInverse | src/Socket.php:61-76 | the two maps are mutual inverses: TCP–STREAM, UDP–DGRAM, ICMP–RAW |
| Sockets.SetProtocolFacts | src/Socket.php:115-124 | a known protocol sets the protocol and its mapped socket type; an unknown one gives InvalidProtocol and changes nothing |
| Sockets.SetSockTypeFacts | src/Socket.php:133-142 | a known type sets the type and its mapped protocol; an unknown one gives InvalidSocket, not InvalidProtocol, and changes nothing |
| Sockets.NewStateFacts | src/Socket.php:403-409 | a new socket holds the address, no descriptor and a mapped pair; the default SOL_TCP gives SOCK_STREAM; an unknown protocol gives InvalidProtocol |
| Sockets.ProtocolGuardKeeps | src/Socket.php:205-212 | the protocol argument and check keep a mapped pair and change neither address nor descriptor |
| Sockets.CreateAddressFirst | src/Socket.php:197-204 | with no address version, create gives InvalidInetAddress whatever the protocol argument, before any OS call |
| Sockets.CreateKeepsProtocol | src/Socket.php:205-208 | a null or 0 protocol argument keeps the stored protocol and socket type |
| Sockets.CreateSocketFails | src/Socket.php:215-224 | a failed socket_create resets the descriptor to none and gives InvalidSocket with the OS error number |
| Sockets.CreateBinds | src/Socket.php:215-248 | after socket_create, bind runs on the new descriptor with the stored address and port; create succeeds exactly when bind does; a failed bind keeps the descriptor |
| Sockets.CreateKeepsPair | src/Socket.php:195-227 | create keeps protocol and socket type a mapped pair |
| Sockets.ConnectFacts | src/Socket.php:319-346 | connect gives InvalidInetAddress exactly when address and port are both empty, never creates a socket, keeps the descriptor and calls only socket_connect with the held address and port |
| Sockets.ListenFacts | src/Socket.php:256-267 | listen makes exactly one call, socket_listen with backlog 5, and changes nothing |
| Sockets.AcceptFailure | src/Socket.php:280-298 | a failed socket_accept gives InvalidSocket with the OS error number; a blocking mode other than 1 and 0 leaves the mode alone |
| Sockets.AcceptLends | src/Socket.php:299-305 | the lent socket has the parent's address, protocol and type and holds the accepted descriptor; accept returns the callback's result |
| Sockets.Socket.New | src/Socket.php:403-409 | the new socket holds the address given and what NewState gives, or the error NewState gives |
| Sockets.Socket.SetInetAddr | src/Socket.php:85-88 | the held address becomes the one given, nothing else changes |
| Sockets.Socket.SetResource | src/Socket.php:98-105 | only an open socket is stored; anything else gives InvalidSocket and leaves the descriptor |
| Sockets.Socket.SetProtocol | src/Socket.php:115-124 | the outcome and new state are those of SetProtocolStep |
| Sockets.Socket.SetSockType | src/Socket.php:133-142 | the outcome and new state are those of SetSockTypeStep |
| Sockets.Socket.Create | src/Socket.php:195-227 | outcome, new state and calls are those of CreateStep; a mapped pair stays mapped |
| Sockets.Socket.GuardProtocol | src/Socket.php:205-212 | outcome and new state are those of ProtocolGuard: a non-null, non-zero argument goes through setProtocol, then InvalidProtocol if no protocol is held |
| Sockets.Socket.OpenAndBind | src/Socket.php:215-226 | outcome, new state and calls are those of OpenStep: socket_create with the held version and pair, then bind on the new descriptor |
| Sockets.Socket.Bind | src/Socket.php:236-248 | outcome and calls are those of BindStep: socket_bind with the held descriptor, address and port |
| Sockets.Socket.Listen | src/Socket.php:256-267 | outcome and calls are those of ListenStep |
| Sockets.Socket.Accept | src/Socket.php:278-306 | result is AcceptResult; the listener only gains the blocking-mode and accept calls; the child is fresh, inherits address, protocol and type, and ends closed; its trace holds accept's own socket_close exactly when the callback did not close it |
| Sockets.Socket.Connect | src/Socket.php:319-346 | outcome, new state and calls are those of ConnectStep; a mapped pair stays mapped |
| Sockets.Socket.Close | src/Socket.php:353-357 | one socket_close on the held descriptor, which is closed afterwards |

## Left out

- OS calls: `socket_create`, `socket_bind`, `socket_listen`, `socket_accept`, `socket_connect`, `socket_close`, `socket_set_block`, `socket_set_nonblock`, `socket_last_error`, `socket_clear_error` and `socket_strerror` are not modelled. The answers of `socket_create`, `socket_bind`, `socket_listen`, `socket_accept` and `socket_connect` are method parameters (`Opened`, `Answer`). The source ignores the answers of `socket_close`, `socket_set_block` and `socket_set_nonblock`, and the model takes none. The ghost trace records each call to all eight with its arguments. The reads of the error number (`socket_last_error`, `socket_clear_error`, `socket_strerror`) are not recorded: the error number is carried by the failed answer. `get_resource_type` becomes the Open/Closed/NoDescriptor state of `Descriptor`.
- `gethostbyname` is the parameter `resolve`. How names resolve is not modelled.
- `setAddress` overwrites its by-reference argument with the resolved string. The model keeps no caller variable, so only the stored address is modelled.
- The magic `__get`, `__set` and `__isset` methods and the `attributes` bag of both classes are not modelled: they are dynamic-property plumbing. Setters and getters are modelled directly. `InetAddr::__set` sends an assignment to `address` to `setAddress` (resolve and classify again) and one to `port` to `setPort`; those changes are `Inet.InetAddr.SetAddress` and `Inet.InetAddr.SetPort`, and the dispatch by property name is not modelled.
- The Socket getters (`getInetAddr`, `getResource`, `getProtocol`, `getSockType`) are plain field reads, and the fields are read directly.
- The `Socket` constructor's default `'localhost:65535'` is not modelled. It is a string passed to a parameter typed `InetAddr`, which fails at run time. `Socket.New` takes an `InetAddr`.
- The `inetAddr` field is never null in the model, so the `empty($this->inetAddr)` halves of the create and connect guards are always false.
- The exception classes are not modelled beyond their kind. Their `CODE_MASK` and message text are dropped, and so is the `$$message` default-message test. `Error` keeps the kind and, for InvalidSocket, the OS error number.
- The messages of the exceptions are not modelled, including connect's message that names `socket_accept`.
- `Sockets.Socket.Accept`: the callback is a pure function of the lent socket's value. It returns its result and whether it closed the socket itself. Its other effects are not modelled, nor is reassigning the by-reference `$sock`.
- `Sockets.Socket.Accept`: the model returns the callback's result, as evidently intended. `accept` in `src/Socket.php` declares the return type `mixed`. Before PHP 8 that name is read as a class, so `return $retval` would raise a TypeError. On PHP 8 sockets are objects, so `get_resource_type` in `setResource` throws before the callback runs. Neither the return-type check nor this PHP version dependence is modelled.
- `Sockets.Socket.Accept`, `Sockets.Socket.Bind`, `Sockets.Socket.Listen`, `Sockets.Socket.Connect`: the OS answer is taken whatever the descriptor is, even none or closed. What PHP's `socket_*` functions do with a null or closed resource is not modelled. For example, `@socket_accept(null)` returns null rather than false, so the source would then fail in `setResource` with InvalidSocket(0), not with the accept error.
- `Sockets.Socket.Accept`: the child's trace holds only the calls made by accept itself. When the callback closes the lent socket, that socket ends `Closed`, but the callback's `socket_close` is not in the trace.
- `Sockets.Socket.Close`: the model records `socket_close` even on a descriptor that is not open. What PHP then raises is not modelled.
- Only the constants the core uses are copied from `src/Utilities/definitions.php` (lines 7-8, 13-15, 20-22 and 28-30). Its errno table is omitted because no core file uses it.
- PHP's loose comparisons are not modelled: the arguments are typed `int`, and PHP's `empty` is read as 0 for integers and as "" or "0" for strings.
