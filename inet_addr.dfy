/** src/InetAddr.php: an IP address and port pair. The constructor resolves the host name,
    classifies the resolved string with the two patterns of INETADDR.php and range-checks the
    port. The resolver (gethostbyname) is a parameter: the model says nothing about how names
    resolve, only what is done with the answer. */
module Inet {
  import opened Errors
  import opened InetAddrPatterns
  import opened PatternFacts

  /** setPort accepts exactly [MinPort, MaxPort]. */
  const MinPort: int := 1
  const MaxPort: int := 65535

  predicate ValidPort(p: int) { MinPort <= p <= MaxPort }

  /** setAddress's decision on the resolved string: version IPv4 when IPV4ADDR matches, else
      IPv6 when IPV6ADDR matches, else InvalidAddress. */
  function Classify(resolved: string): (r: Result<int>)
    ensures r.Ok? ==> r.value == IPv4 || r.value == IPv6
    ensures r.Err? ==> r.error == InvalidAddress
  {
    if MatchesIpv4(resolved) then Ok(IPv4)
    else if MatchesIpv6(resolved) then Ok(IPv6)
    else Err(InvalidAddress)
  }

  /** The order of the two tests does not matter: each version is given exactly to matches of
      its own pattern, and only strings matching neither are refused. */
  lemma ClassifyIff(s: string)
    ensures Classify(s) == Ok(IPv4) <==> MatchesIpv4(s)
    ensures Classify(s) == Ok(IPv6) <==> MatchesIpv6(s)
    ensures Classify(s) == Err(InvalidAddress) <==> !MatchesIpv4(s) && !MatchesIpv6(s)
  {
    PatternsDisjoint(s);
  }

  /** Version IPv4 is given exactly to four dot-separated decimal octets, possibly followed by
      one newline. */
  lemma ClassifyDottedQuad(s: string)
    ensures Classify(s) == Ok(IPv4) <==>
      DottedQuad(s) || (|s| > 0 && s[|s| - 1] == '\n' && DottedQuad(s[..|s| - 1]))
  {
    MatchesIpv4Iff(s);
  }

  /** The value an InetAddr holds. */
  datatype Endpoint = Endpoint(address: string, version: int, port: int)

  /** What a constructed InetAddr holds: a resolved address, the version its pattern gives, a
      port in range. */
  predicate ValidEndpoint(e: Endpoint) {
    Classify(e.address) == Ok(e.version) && ValidPort(e.port)
  }

  /** __construct on values: setAddress (resolve, then classify), then setPort. */
  function Construct(host: string, port: int, resolve: string -> string): (r: Result<Endpoint>)
    ensures r.Ok? ==> ValidEndpoint(r.value)
  {
    var resolved := resolve(host);
    match Classify(resolved)
    case Err(e) => Err(e)
    case Ok(v) => if ValidPort(port) then Ok(Endpoint(resolved, v, port)) else Err(InvalidPort)
  }

  /** Construction succeeds exactly when the resolved string matches one of the two patterns
      and the port is in range; the address stored is the resolver's answer, the port is the
      one given, and the version is that of the matching pattern. */
  lemma ConstructOk(host: string, port: int, resolve: string -> string)
    ensures Construct(host, port, resolve).Ok? <==>
      (MatchesIpv4(resolve(host)) || MatchesIpv6(resolve(host))) && ValidPort(port)
    ensures MatchesIpv4(resolve(host)) && ValidPort(port) ==>
      Construct(host, port, resolve) == Ok(Endpoint(resolve(host), IPv4, port))
    ensures MatchesIpv6(resolve(host)) && ValidPort(port) ==>
      Construct(host, port, resolve) == Ok(Endpoint(resolve(host), IPv6, port))
  {
    ClassifyIff(resolve(host));
  }

  /** The address is checked before the port: a bad address is reported as InvalidAddress
      whatever the port, and InvalidPort only comes with a good address. */
  lemma ConstructErrors(host: string, port: int, resolve: string -> string)
    ensures !MatchesIpv4(resolve(host)) && !MatchesIpv6(resolve(host)) ==>
      Construct(host, port, resolve) == Err(InvalidAddress)
    ensures Construct(host, port, resolve) == Err(InvalidPort) <==>
      (MatchesIpv4(resolve(host)) || MatchesIpv6(resolve(host))) && !ValidPort(port)
  {
    ClassifyIff(resolve(host));
  }

  /** A host name that resolves to itself and is a dotted quad gives an IPv4 address. */
  lemma LiteralHostIpv4(host: string, port: int, resolve: string -> string)
    requires resolve(host) == host && DottedQuad(host) && ValidPort(port)
    ensures Construct(host, port, resolve) == Ok(Endpoint(host, IPv4, port))
  {
    Ipv4LiteralIff(host);
  }

  /** A constructed address has version IPv4 or IPv6, and IPv4 exactly when its address string
      matches IPV4ADDR. */
  lemma EndpointVersion(e: Endpoint)
    ensures ValidEndpoint(e) ==> e.version == IPv4 || e.version == IPv6
    ensures ValidEndpoint(e) ==>
      (e.version == IPv4 <==> MatchesIpv4(e.address)) && (e.version == IPv6 <==> MatchesIpv6(e.address))
  {
    ClassifyIff(e.address);
  }

  class InetAddr {
    var address: string
    var version: int
    var port: int

    function View(): Endpoint
      reads this
    {
      Endpoint(address, version, port)
    }

    ghost predicate Valid()
      reads this
    {
      ValidEndpoint(View())
    }

    /** The fields before the setters run: PHP's unset properties, read as empty. */
    constructor Blank()
      ensures address == "" && version == 0 && port == 0
    {
      address, version, port := "", 0, 0;
    }

    /** setAddress: resolve, classify, then store; nothing is stored on InvalidAddress. */
    method SetAddress(value: string, resolve: string -> string) returns (r: Result<string>)
      modifies this`address, this`version
      ensures Classify(resolve(value)).Ok? ==>
        r == Ok(resolve(value)) && address == resolve(value) && Classify(address) == Ok(version)
      ensures Classify(resolve(value)).Err? ==>
        r == Err(InvalidAddress) && address == old(address) && version == old(version)
    {
      var resolved := resolve(value);
      if !MatchesIpv4(resolved) {
        if !MatchesIpv6(resolved) {
          return Err(InvalidAddress);
        }
        version := IPv6;
      } else {
        version := IPv4;
      }
      address := resolved;
      return Ok(address);
    }

    /** setPort: a port in [1, 65535] is stored unchanged, any other is refused. */
    method SetPort(value: int) returns (r: Result<int>)
      modifies this`port
      ensures ValidPort(value) ==> r == Ok(value) && port == value
      ensures !ValidPort(value) ==> r == Err(InvalidPort) && port == old(port)
    {
      if value < MinPort || value > MaxPort {
        return Err(InvalidPort);
      }
      port := value;
      return Ok(port);
    }

    /** getAddress: of a constructed address, a match of one of the two patterns. */
    function GetAddress(): (a: string)
      reads this
      ensures Valid() ==> MatchesIpv4(a) || MatchesIpv6(a)
    {
      address
    }

    /** getPort: of a constructed address, a port in range. */
    function GetPort(): (p: int)
      reads this
      ensures Valid() ==> ValidPort(p)
    {
      port
    }

    /** getVersion: of a constructed address, the version of the pattern its address matches. */
    function GetVersion(): (v: int)
      reads this
      ensures Valid() ==> v == IPv4 || v == IPv6
      ensures Valid() ==> (v == IPv4 <==> MatchesIpv4(address)) && (v == IPv6 <==> MatchesIpv6(address))
    {
      EndpointVersion(View());
      version
    }

    /** __construct: setAddress, then setPort; an exception leaves no object behind. */
    static method New(host: string, port: int, resolve: string -> string) returns (r: Result<InetAddr>)
      ensures r.Ok? ==> fresh(r.value) && Construct(host, port, resolve) == Ok(r.value.View())
      ensures r.Err? ==> Construct(host, port, resolve) == Err(r.error)
    {
      var a := new InetAddr.Blank();
      var stored := a.SetAddress(host, resolve);
      if stored.Err? {
        return Err(stored.error);
      }
      var kept := a.SetPort(port);
      if kept.Err? {
        return Err(kept.error);
      }
      return Ok(a);
    }
  }
}
