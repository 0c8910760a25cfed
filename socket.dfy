/** src/Socket.php: a socket wrapper that keeps an address, a protocol, the matching socket type
    and an OS socket descriptor. The socket_* calls whose answer the source reads (socket_create,
    socket_bind, socket_listen, socket_accept, socket_connect) take that answer as a method
    parameter; the source ignores the answers of socket_close, socket_set_block and
    socket_set_nonblock, and the model takes none. A ghost trace records all eight kinds of call
    with their arguments.
    The OS steps have specification functions on a value view of the socket that return a Step
    (outcome, new state, calls made): CreateStep, OpenStep, BindStep, ListenStep, ConnectStep and
    CloseStep. SetProtocolStep, SetSockTypeStep and ProtocolGuard return an outcome and a state,
    NewState returns a Result, and accept is stated by AcceptCalls, ChildState and AcceptResult.
    SetInetAddr and SetResource state their new fields directly. The lemmas about these
    functions state the source's guarantees. */
module Sockets {
  import opened Definitions
  import opened Errors
  import opened Inet

  // ------------------------------------------------ the protocol maps

  /** $PROTOCOL_MAP_SOL2SOCK: protocol to socket type */
  const Sol2Sock: map<int, int> := map[SOL_TCP := SOCK_STREAM, SOL_UDP := SOCK_DGRAM, SOL_ICMP := SOCK_RAW]

  /** $PROTOCOL_MAP_SOCK2SOL: socket type to protocol */
  const Sock2Sol: map<int, int> := map[SOCK_STREAM := SOL_TCP, SOCK_DGRAM := SOL_UDP, SOCK_RAW := SOL_ICMP]

  /** The backlog listen always passes. */
  const Backlog: int := 5

  /** setProtocol's test, `in_array($value, SOCK2SOL)`: a value of the type-to-protocol map */
  predicate KnownProtocol(p: int) { p in Sock2Sol.Values }

  /** setSockType's test, `in_array($value, SOL2SOCK)`: a value of the protocol-to-type map */
  predicate KnownSockType(t: int) { t in Sol2Sock.Values }

  /** protocol and socket type belong together */
  predicate MappedPair(p: int, t: int) { p in Sol2Sock && Sol2Sock[p] == t }

  /** The known protocols are TCP, UDP and ICMP: exactly the keys of the protocol map. */
  lemma KnownProtocols(p: int)
    ensures KnownProtocol(p) <==> p == SOL_TCP || p == SOL_UDP || p == SOL_ICMP
    ensures KnownProtocol(p) <==> p in Sol2Sock
  {
    if KnownProtocol(p) {
      var t :| t in Sock2Sol && Sock2Sol[t] == p;
    }
    if p == SOL_TCP { assert Sock2Sol[SOCK_STREAM] == p; }
    if p == SOL_UDP { assert Sock2Sol[SOCK_DGRAM] == p; }
    if p == SOL_ICMP { assert Sock2Sol[SOCK_RAW] == p; }
  }

  /** The known socket types are STREAM, DGRAM and RAW: exactly the keys of the type map. */
  lemma KnownSockTypes(t: int)
    ensures KnownSockType(t) <==> t == SOCK_STREAM || t == SOCK_DGRAM || t == SOCK_RAW
    ensures KnownSockType(t) <==> t in Sock2Sol
  {
    if KnownSockType(t) {
      var p :| p in Sol2Sock && Sol2Sock[p] == t;
    }
    if t == SOCK_STREAM { assert Sol2Sock[SOL_TCP] == t; }
    if t == SOCK_DGRAM { assert Sol2Sock[SOL_UDP] == t; }
    if t == SOCK_RAW { assert Sol2Sock[SOL_ICMP] == t; }
  }

  /** The two maps are mutual inverses, and the pairs are TCP/STREAM, UDP/DGRAM, ICMP/RAW. */
  lemma MapsInverse(p: int, t: int)
    ensures MappedPair(p, t) <==> t in Sock2Sol && Sock2Sol[t] == p
    ensures MappedPair(p, t) <==>
      (p == SOL_TCP && t == SOCK_STREAM) || (p == SOL_UDP && t == SOCK_DGRAM) || (p == SOL_ICMP && t == SOCK_RAW)
  {
  }

  // ------------------------------------------------ the value view

  /** The OS socket a Socket holds: none (null), an open socket, or one that was closed
      (get_resource_type no longer says "Socket"). */
  datatype Descriptor = NoDescriptor | Open(fd: int) | Closed(fd: int)

  /** The OS's answer to a call that succeeds or fails with an error number. */
  datatype Answer = Done | Failed(errno: int)

  /** The OS's answer to socket_create or socket_accept. */
  datatype Opened = Opened(fd: int) | OpenFailed(errno: int)

  /** The socket_* calls, with their arguments. */
  datatype OsCall =
    | SocketCreate(domain: int, sockType: int, protocol: int)
    | SocketBind(socket: Descriptor, address: string, port: int)
    | SocketListen(socket: Descriptor, backlog: int)
    | SocketSetBlock(socket: Descriptor)
    | SocketSetNonblock(socket: Descriptor)
    | SocketAccept(socket: Descriptor)
    | SocketConnect(socket: Descriptor, address: string, port: int)
    | SocketClose(socket: Descriptor)

  /** A Socket's fields, with its address as a value. */
  datatype SocketState = SocketState(inet: Endpoint, resource: Descriptor, protocol: int, sockType: int)

  /** What an operation did: how it ended, the state it left, the calls it made in order. */
  datatype Step = Step(outcome: Outcome, state: SocketState, calls: seq<OsCall>)

  /** What the callback of accept returns, and whether it closed the lent socket itself. */
  datatype Lent<R> = Lent(result: R, closedByCallback: bool)

  /** PHP's empty() on a string: "" and "0" */
  predicate EmptyString(s: string) { s == "" || s == "0" }

  function AnswerOutcome(a: Answer): (o: Outcome)
    ensures o == Pass <==> a == Done
    ensures a.Failed? ==> o == Fail(InvalidSocket(a.errno))
  {
    match a
    case Done => Pass
    case Failed(e) => Fail(InvalidSocket(e))
  }

  // ------------------------------------------------ setters

  /** setProtocol on values: a known protocol sets the protocol and its socket type. */
  function SetProtocolStep(st: SocketState, value: int): (r: (Outcome, SocketState))
  {
    KnownProtocols(value);
    if KnownProtocol(value) then (Pass, st.(protocol := value, sockType := Sol2Sock[value]))
    else (Fail(InvalidProtocol), st)
  }

  /** setSockType on values: a known socket type sets it and its protocol. */
  function SetSockTypeStep(st: SocketState, value: int): (r: (Outcome, SocketState))
  {
    KnownSockTypes(value);
    if KnownSockType(value) then (Pass, st.(protocol := Sock2Sol[value], sockType := value))
    else (Fail(InvalidSocket(0)), st)
  }

  /** setProtocol succeeds exactly on TCP, UDP and ICMP and then leaves a mapped pair; otherwise
      it reports InvalidProtocol and changes nothing. Nothing but the two fields changes. */
  lemma SetProtocolFacts(st: SocketState, value: int)
    ensures SetProtocolStep(st, value).0 == Pass <==> value == SOL_TCP || value == SOL_UDP || value == SOL_ICMP
    ensures SetProtocolStep(st, value).0 == Pass ==>
      var s := SetProtocolStep(st, value).1;
      s.protocol == value && MappedPair(s.protocol, s.sockType) && s.inet == st.inet && s.resource == st.resource
    ensures SetProtocolStep(st, value).0 != Pass ==> SetProtocolStep(st, value) == (Fail(InvalidProtocol), st)
  {
    KnownProtocols(value);
  }

  /** setSockType succeeds exactly on STREAM, DGRAM and RAW and then leaves a mapped pair;
      otherwise it reports InvalidSocket (not InvalidProtocol) and changes nothing. */
  lemma SetSockTypeFacts(st: SocketState, value: int)
    ensures SetSockTypeStep(st, value).0 == Pass <==> value == SOCK_STREAM || value == SOCK_DGRAM || value == SOCK_RAW
    ensures SetSockTypeStep(st, value).0 == Pass ==>
      var s := SetSockTypeStep(st, value).1;
      s.sockType == value && MappedPair(s.protocol, s.sockType) && s.inet == st.inet && s.resource == st.resource
    ensures SetSockTypeStep(st, value).0 != Pass ==> SetSockTypeStep(st, value) == (Fail(InvalidSocket(0)), st)
  {
    KnownSockTypes(value);
    if KnownSockType(value) {
      MapsInverse(Sock2Sol[value], value);
    }
  }

  // ------------------------------------------------ construction

  /** __construct on values: setInetAddr, then setProtocol. */
  function NewState(inet: Endpoint, protocol: int): (r: Result<SocketState>)
  {
    var (o, s) := SetProtocolStep(SocketState(inet, NoDescriptor, 0, 0), protocol);
    if o.Fail? then Err(o.error) else Ok(s)
  }

  /** A new socket holds the address given, no descriptor and a mapped pair; the default
      protocol SOL_TCP gives SOCK_STREAM, and an unknown protocol gives InvalidProtocol. */
  lemma NewStateFacts(inet: Endpoint, protocol: int)
    ensures NewState(inet, protocol).Ok? <==> KnownProtocol(protocol)
    ensures NewState(inet, protocol).Ok? ==>
      var s := NewState(inet, protocol).value;
      s.inet == inet && s.resource == NoDescriptor && s.protocol == protocol && MappedPair(s.protocol, s.sockType)
    ensures NewState(inet, SOL_TCP) == Ok(SocketState(inet, NoDescriptor, SOL_TCP, SOCK_STREAM))
    ensures !KnownProtocol(protocol) ==> NewState(inet, protocol) == Err(InvalidProtocol)
  {
    SetProtocolFacts(SocketState(inet, NoDescriptor, 0, 0), protocol);
    KnownProtocols(protocol);
    KnownProtocols(SOL_TCP);
  }

  // ------------------------------------------------ create, bind, listen, connect, close

  /** `if (!empty($address)) setInetAddr($address)` */
  function WithAddress(st: SocketState, address: Option<Endpoint>): SocketState {
    if address.Some? then st.(inet := address.value) else st
  }

  /** The protocol argument and the protocol check shared by create and connect. */
  function ProtocolGuard(st: SocketState, protocol: Option<int>): (r: (Outcome, SocketState))
  {
    var (o, s) := if protocol.Some? && protocol.value != 0 then SetProtocolStep(st, protocol.value) else (Pass, st);
    if o.Fail? then (o, s) else if s.protocol == 0 then (Fail(InvalidProtocol), s) else (Pass, s)
  }

  /** The checks create makes before calling the OS. */
  function CreateGuards(st: SocketState, address: Option<Endpoint>, protocol: Option<int>): (r: (Outcome, SocketState))
  {
    var s := WithAddress(st, address);
    if s.inet.version == 0 then (Fail(InvalidInetAddress), s) else ProtocolGuard(s, protocol)
  }

  /** bind on values */
  function BindStep(st: SocketState, bound: Answer): (r: Step)
  {
    Step(AnswerOutcome(bound), st, [SocketBind(st.resource, st.inet.address, st.inet.port)])
  }

  /** create on values: the checks, socket_create, then bind. */
  function CreateStep(st: SocketState, address: Option<Endpoint>, protocol: Option<int>, created: Opened, bound: Answer): (r: Step)
  {
    var (o, s) := CreateGuards(st, address, protocol);
    if o.Fail? then Step(o, s, []) else OpenStep(s, created, bound)
  }

  /** The OS part of create: socket_create with the held version and pair, then bind. */
  function OpenStep(st: SocketState, created: Opened, bound: Answer): (r: Step)
  {
    var c := SocketCreate(st.inet.version, st.sockType, st.protocol);
    match created
    case OpenFailed(e) => Step(Fail(InvalidSocket(e)), st.(resource := NoDescriptor), [c])
    case Opened(fd) =>
      var b := BindStep(st.(resource := Open(fd)), bound);
      Step(b.outcome, b.state, [c] + b.calls)
  }

  /** listen on values */
  function ListenStep(st: SocketState, listened: Answer): (r: Step)
  {
    Step(AnswerOutcome(listened), st, [SocketListen(st.resource, Backlog)])
  }

  /** connect on values: the checks, then socket_connect on the descriptor already held. */
  function ConnectStep(st: SocketState, address: Option<Endpoint>, protocol: Option<int>, connected: Answer): (r: Step)
  {
    var s := WithAddress(st, address);
    if EmptyString(s.inet.address) && s.inet.port == 0 then Step(Fail(InvalidInetAddress), s, [])
    else
      var (o, s') := ProtocolGuard(s, protocol);
      if o.Fail? then Step(o, s', [])
      else Step(AnswerOutcome(connected), s', [SocketConnect(s'.resource, s'.inet.address, s'.inet.port)])
  }

  /** close on values: socket_close on the descriptor held. */
  function CloseStep(st: SocketState): (r: Step)
  {
    var d := match st.resource case Open(fd) => Closed(fd) case _ => st.resource;
    Step(Pass, st.(resource := d), [SocketClose(st.resource)])
  }

  /** Over a protocol argument, a mapped pair stays a mapped pair, and nothing but the
      protocol and the socket type changes. */
  lemma ProtocolGuardKeeps(st: SocketState, protocol: Option<int>)
    ensures var (o, s) := ProtocolGuard(st, protocol);
      s.inet == st.inet && s.resource == st.resource
      && (MappedPair(st.protocol, st.sockType) ==> MappedPair(s.protocol, s.sockType))
  {
    if protocol.Some? && protocol.value != 0 {
      SetProtocolFacts(st, protocol.value);
    }
  }

  /** create checks the address before the protocol: with no version there is
      InvalidInetAddress, whatever the protocol argument, no OS call, and the protocol and
      type are untouched. */
  lemma CreateAddressFirst(st: SocketState, address: Option<Endpoint>, protocol: Option<int>, created: Opened, bound: Answer)
    requires WithAddress(st, address).inet.version == 0
    ensures CreateStep(st, address, protocol, created, bound) == Step(Fail(InvalidInetAddress), WithAddress(st, address), [])
  {
  }

  /** A null or 0 protocol argument keeps the stored protocol and socket type. */
  lemma CreateKeepsProtocol(st: SocketState, address: Option<Endpoint>, protocol: Option<int>, created: Opened, bound: Answer)
    requires protocol.None? || protocol.value == 0
    ensures var r := CreateStep(st, address, protocol, created, bound);
      r.state.protocol == st.protocol && r.state.sockType == st.sockType
  {
  }

  /** When the checks pass, create calls socket_create with the held version and the pair; if
      that fails, the descriptor is reset to none and InvalidSocket carries the OS code. */
  lemma CreateSocketFails(st: SocketState, address: Option<Endpoint>, protocol: Option<int>, errno: int, bound: Answer)
    requires CreateGuards(st, address, protocol).0 == Pass
    ensures var s := CreateGuards(st, address, protocol).1;
      CreateStep(st, address, protocol, OpenFailed(errno), bound)
      == Step(Fail(InvalidSocket(errno)), s.(resource := NoDescriptor), [SocketCreate(s.inet.version, s.sockType, s.protocol)])
  {
  }

  /** When socket_create succeeds, bind runs on the new descriptor with the held address and
      port; create succeeds exactly when bind does, and a failed bind keeps the descriptor. */
  lemma CreateBinds(st: SocketState, address: Option<Endpoint>, protocol: Option<int>, fd: int, bound: Answer)
    requires CreateGuards(st, address, protocol).0 == Pass
    ensures var s := CreateGuards(st, address, protocol).1;
      var r := CreateStep(st, address, protocol, Opened(fd), bound);
      r.state == s.(resource := Open(fd))
      && r.calls == [SocketCreate(s.inet.version, s.sockType, s.protocol), SocketBind(Open(fd), s.inet.address, s.inet.port)]
      && (r.outcome == Pass <==> bound == Done)
      && (bound.Failed? ==> r.outcome == Fail(InvalidSocket(bound.errno)))
  {
  }

  /** create keeps protocol and socket type a mapped pair. */
  lemma CreateKeepsPair(st: SocketState, address: Option<Endpoint>, protocol: Option<int>, created: Opened, bound: Answer)
    ensures var s := CreateStep(st, address, protocol, created, bound).state;
      MappedPair(st.protocol, st.sockType) ==> MappedPair(s.protocol, s.sockType)
  {
    ProtocolGuardKeeps(WithAddress(st, address), protocol);
  }

  /** connect refuses the address only when none is usable, never creates a socket, and uses
      the descriptor already held, unchanged. */
  lemma ConnectFacts(st: SocketState, address: Option<Endpoint>, protocol: Option<int>, connected: Answer)
    ensures var s, r := WithAddress(st, address), ConnectStep(st, address, protocol, connected);
      (r.outcome == Fail(InvalidInetAddress) <==> EmptyString(s.inet.address) && s.inet.port == 0)
      && r.state.resource == st.resource
      && (forall c :: c in r.calls ==> c == SocketConnect(st.resource, s.inet.address, s.inet.port))
      && (MappedPair(st.protocol, st.sockType) ==> MappedPair(r.state.protocol, r.state.sockType))
  {
    ProtocolGuardKeeps(WithAddress(st, address), protocol);
  }

  /** listen makes one call, with backlog 5, and changes nothing. */
  lemma ListenFacts(st: SocketState, listened: Answer)
    ensures ListenStep(st, listened) == Step(AnswerOutcome(listened), st, [SocketListen(st.resource, 5)])
    ensures ListenStep(st, listened).outcome == Pass <==> listened == Done
  {
  }

  // ------------------------------------------------ accept

  /** The calls accept makes on the listening socket: the blocking mode (only for the two
      known values), then socket_accept. */
  function AcceptCalls(resource: Descriptor, blocking: int): (cs: seq<OsCall>)
  {
    (if blocking == SOCKET_BLOCK then [SocketSetBlock(resource)]
     else if blocking == SOCKET_NONBLOCK then [SocketSetNonblock(resource)]
     else [])
    + [SocketAccept(resource)]
  }

  /** The socket lent to the callback: `new Socket($this->inetAddr, $this->protocol)` holding
      the accepted descriptor. */
  function ChildState(st: SocketState, fd: int): (r: Result<SocketState>)
  {
    match NewState(st.inet, st.protocol)
    case Err(e) => Err(e)
    case Ok(c) => Ok(c.(resource := Open(fd)))
  }

  /** What accept returns. */
  function AcceptResult<R>(st: SocketState, callback: SocketState -> Lent<R>, accepted: Opened): (r: Result<R>)
  {
    match accepted
    case OpenFailed(e) => Err(InvalidSocket(e))
    case Opened(fd) =>
      match ChildState(st, fd)
      case Err(e) => Err(e)
      case Ok(c) => Ok(callback(c).result)
  }

  /** A socket that fails to accept always reports InvalidSocket with the OS code, and every
      blocking mode other than 1 and 0 leaves the mode alone. */
  lemma AcceptFailure<R>(st: SocketState, blocking: int, callback: SocketState -> Lent<R>, errno: int)
    ensures AcceptResult(st, callback, OpenFailed(errno)) == Err(InvalidSocket(errno))
    ensures blocking != SOCKET_BLOCK && blocking != SOCKET_NONBLOCK ==> AcceptCalls(st.resource, blocking) == [SocketAccept(st.resource)]
  {
  }

  /** The child of a socket with a mapped pair has the parent's address, protocol and socket
      type and holds the accepted descriptor; accept returns what the callback returns. */
  lemma AcceptLends<R>(st: SocketState, callback: SocketState -> Lent<R>, fd: int)
    requires MappedPair(st.protocol, st.sockType)
    ensures ChildState(st, fd) == Ok(st.(resource := Open(fd)))
    ensures AcceptResult(st, callback, Opened(fd)) == Ok(callback(st.(resource := Open(fd))).result)
  {
    NewStateFacts(st.inet, st.protocol);
    KnownProtocols(st.protocol);
  }

  // ------------------------------------------------ the class

  class Socket {
    var inetAddr: InetAddr
    var resource: Descriptor
    var protocol: int
    var sockType: int
    /** every socket_* call this object's own methods make, in order (a close done by a callback
        of accept is not among them) */
    ghost var calls: seq<OsCall>

    function View(): SocketState
      reads this, inetAddr
    {
      SocketState(inetAddr.View(), resource, protocol, sockType)
    }

    /** protocol and socket type belong together */
    ghost predicate Valid()
      reads this
    {
      MappedPair(protocol, sockType)
    }

    /** The object before setProtocol runs: setInetAddr done, no descriptor, no protocol. */
    constructor Blank(address: InetAddr)
      ensures inetAddr == address && resource == NoDescriptor && protocol == 0 && sockType == 0 && calls == []
    {
      inetAddr, resource, protocol, sockType := address, NoDescriptor, 0, 0;
      calls := [];
    }

    /** __construct: setInetAddr, then setProtocol (SOL_TCP when not given). */
    static method New(address: InetAddr, protocol: int) returns (r: Result<Socket>)
      ensures r.Ok? ==> fresh(r.value) && r.value.inetAddr == address && r.value.calls == []
                        && NewState(address.View(), protocol) == Ok(r.value.View())
      ensures r.Err? ==> NewState(address.View(), protocol) == Err(r.error)
    {
      var s := new Socket.Blank(address);
      var o := s.SetProtocol(protocol);
      if o.Fail? {
        return Err(o.error);
      }
      return Ok(s);
    }

    /** setInetAddr */
    method SetInetAddr(value: InetAddr)
      modifies this`inetAddr
      ensures inetAddr == value
    {
      inetAddr := value;
    }

    /** setResource: only an open socket is accepted. */
    method SetResource(value: Descriptor) returns (r: Outcome)
      modifies this`resource
      ensures value.Open? ==> r == Pass && resource == value
      ensures !value.Open? ==> r == Fail(InvalidSocket(0)) && resource == old(resource)
    {
      if !value.Open? {
        return Fail(InvalidSocket(0));
      }
      resource := value;
      return Pass;
    }

    /** setProtocol */
    method SetProtocol(value: int) returns (r: Outcome)
      modifies this`protocol, this`sockType
      ensures (r, View()) == SetProtocolStep(old(View()), value)
    {
      KnownProtocols(value);
      if !KnownProtocol(value) {
        return Fail(InvalidProtocol);
      }
      sockType := Sol2Sock[value];
      protocol := value;
      return Pass;
    }

    /** setSockType */
    method SetSockType(value: int) returns (r: Outcome)
      modifies this`protocol, this`sockType
      ensures (r, View()) == SetSockTypeStep(old(View()), value)
    {
      KnownSockTypes(value);
      if !KnownSockType(value) {
        return Fail(InvalidSocket(0));
      }
      protocol := Sock2Sol[value];
      sockType := value;
      return Pass;
    }

    /** The protocol argument and check of create and connect. */
    method GuardProtocol(value: Option<int>) returns (r: Outcome)
      modifies this`protocol, this`sockType
      ensures (r, View()) == ProtocolGuard(old(View()), value)
    {
      r := Pass;
      if value.Some? && value.value != 0 {
        r := SetProtocol(value.value);
        if r.Fail? {
          return;
        }
      }
      if protocol == 0 {
        return Fail(InvalidProtocol);
      }
    }

    /** create */
    method Create(address: InetAddr?, protocol: Option<int>, created: Opened, bound: Answer) returns (r: Outcome)
      modifies this
      ensures inetAddr == (if address != null then address else old(inetAddr))
      ensures var step := CreateStep(old(View()), if address != null then Some(address.View()) else None, protocol, created, bound);
        r == step.outcome && View() == step.state && calls == old(calls) + step.calls
      ensures old(Valid()) ==> Valid()
    {
      ghost var st := View();
      if address != null {
        SetInetAddr(address);
      }
      if inetAddr.version == 0 {
        return Fail(InvalidInetAddress);
      }
      r := GuardProtocol(protocol);
      if r.Fail? {
        return;
      }
      CreateKeepsPair(st, if address != null then Some(address.View()) else None, protocol, created, bound);
      r := OpenAndBind(created, bound);
    }

    /** socket_create, then bind on the new descriptor. */
    method OpenAndBind(created: Opened, bound: Answer) returns (r: Outcome)
      modifies this`resource, this`calls
      ensures var step := OpenStep(old(View()), created, bound);
        r == step.outcome && View() == step.state && calls == old(calls) + step.calls
    {
      calls := calls + [SocketCreate(inetAddr.version, sockType, protocol)];
      match created
      case OpenFailed(e) =>
        resource := NoDescriptor;
        return Fail(InvalidSocket(e));
      case Opened(fd) =>
        resource := Open(fd);
        r := Bind(bound);
    }

    /** bind: socket_bind with the held descriptor, address and port. */
    method Bind(bound: Answer) returns (r: Outcome)
      modifies this`calls
      ensures var step := BindStep(View(), bound);
        r == step.outcome && calls == old(calls) + step.calls
    {
      calls := calls + [SocketBind(resource, inetAddr.address, inetAddr.port)];
      r := AnswerOutcome(bound);
    }

    /** listen: socket_listen with backlog 5. */
    method Listen(listened: Answer) returns (r: Outcome)
      modifies this`calls
      ensures var step := ListenStep(View(), listened);
        r == step.outcome && calls == old(calls) + step.calls
    {
      calls := calls + [SocketListen(resource, Backlog)];
      r := AnswerOutcome(listened);
    }

    /** accept: set the blocking mode, accept, lend a new socket holding the connection to the
        callback, close it afterwards unless the callback did, and return the callback's
        result. The listening socket itself only gains calls. */
    method Accept<R>(blocking: int, callback: SocketState -> Lent<R>, accepted: Opened) returns (r: Result<R>, ghost child: Socket?)
      modifies this`calls
      ensures r == AcceptResult(View(), callback, accepted)
      ensures calls == old(calls) + AcceptCalls(resource, blocking)
      ensures r.Ok? <==> child != null
      ensures child != null ==>
        fresh(child) && accepted.Opened? && child.inetAddr == inetAddr && child.protocol == protocol
        && child.sockType == ChildState(View(), accepted.fd).value.sockType
        && child.resource == Closed(accepted.fd)
        && child.calls == (if callback(ChildState(View(), accepted.fd).value).closedByCallback then []
                           else [SocketClose(Open(accepted.fd))])
      ensures child != null && Valid() ==> child.sockType == sockType
    {
      child := null;
      if blocking == SOCKET_BLOCK {
        calls := calls + [SocketSetBlock(resource)];
      } else if blocking == SOCKET_NONBLOCK {
        calls := calls + [SocketSetNonblock(resource)];
      }
      calls := calls + [SocketAccept(resource)];
      match accepted
      case OpenFailed(e) =>
        return Err(InvalidSocket(e)), null;
      case Opened(fd) =>
        var made := New(inetAddr, protocol);
        if made.Err? {
          return Err(made.error), null;
        }
        var sock := made.value;
        if Valid() {
          AcceptLends(View(), callback, fd);
        }
        var held := sock.SetResource(Open(fd));
        var lent := callback(sock.View());
        if lent.closedByCallback {
          sock.resource := Closed(fd);
        } else {
          sock.Close();
        }
        return Ok(lent.result), sock;
    }

    /** connect */
    method Connect(address: InetAddr?, protocol: Option<int>, connected: Answer) returns (r: Outcome)
      modifies this
      ensures inetAddr == (if address != null then address else old(inetAddr))
      ensures var step := ConnectStep(old(View()), if address != null then Some(address.View()) else None, protocol, connected);
        r == step.outcome && View() == step.state && calls == old(calls) + step.calls
      ensures old(Valid()) ==> Valid()
    {
      ghost var st := View();
      if address != null {
        SetInetAddr(address);
      }
      if EmptyString(inetAddr.address) && inetAddr.port == 0 {
        return Fail(InvalidInetAddress);
      }
      r := GuardProtocol(protocol);
      if r.Fail? {
        return;
      }
      ConnectFacts(st, if address != null then Some(address.View()) else None, protocol, connected);
      calls := calls + [SocketConnect(resource, inetAddr.address, inetAddr.port)];
      r := AnswerOutcome(connected);
    }

    /** close */
    method Close()
      modifies this`resource, this`calls
      ensures var step := CloseStep(old(View()));
        View() == step.state && calls == old(calls) + step.calls
    {
      calls := calls + [SocketClose(resource)];
      match resource
      case Open(fd) => resource := Closed(fd);
      case _ =>
    }
  }
}
