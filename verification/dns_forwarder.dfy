/**
  The upstream side of the proxy (`DnsForwarder`): the configured `IP:PORT`
  strings parsed eagerly and all-or-nothing, and a query tried on each
  server in turn until one answers. The network is a parameter: `send`
  says what one attempt on one server produced.
*/
module DnsForwarder {
  import opened Wrappers
  import opened Bytes
  import opened Text

  datatype IPv4 = IPv4(a: byte, b: byte, c: byte, d: byte)

  datatype Endpoint = Endpoint(address: IPv4, port: uint16)

  datatype ForwarderError =
    | InvalidEndpoint(endpoint: string)   // the constructor's `ArgumentException`
    | AllUpstreamsFailed                  // "All upstream DNS servers failed"

  /** One send/receive on one server: the reply, or any exception (timeout, socket error, cancellation). */
  datatype Attempt = Reply(response: seq<byte>) | Failed

  // ---------------------------------------------------------------------
  // Decimal numbers
  // ---------------------------------------------------------------------

  predicate IsDigit(ch: char)
  {
    '0' <= ch <= '9'
  }

  predicate AllDigits(s: string)
  {
    forall k :: 0 <= k < |s| ==> IsDigit(s[k])
  }

  /** The value of a string of decimal digits, most significant first. */
  function DigitsValue(s: string): nat
    requires AllDigits(s)
  {
    if |s| == 0 then 0 else DigitsValue(s[..|s| - 1]) * 10 + (s[|s| - 1] as int - '0' as int)
  }

  /** The shortest decimal spelling of `n`. */
  function DecimalString(n: nat): (s: string)
    ensures |s| >= 1 && AllDigits(s)
  {
    var last := [('0' as int + n % 10) as char];
    if n < 10 then last else DecimalString(n / 10) + last
  }

  /** Reading back the decimal spelling gives the number. */
  lemma {:induction false} DecimalRoundTrip(n: nat)
    ensures DigitsValue(DecimalString(n)) == n
  {
    var s := DecimalString(n);
    if n >= 10 {
      assert s[..|s| - 1] == DecimalString(n / 10);
      DecimalRoundTrip(n / 10);
    }
  }

  /** Every decimal spelling is read back as the number it spells. */
  lemma DecimalSpellingsRead(s: string)
    ensures forall n: nat :: s == DecimalString(n) ==> AllDigits(s) && DigitsValue(s) == n
  {
    forall n: nat | s == DecimalString(n)
      ensures DigitsValue(s) == n
    {
      DecimalRoundTrip(n);
    }
  }

  /**
    A number in `0..max` written in decimal digits; anything else is refused.
    The decimal spelling of every number up to `max` is read back as that
    number, and conversely a number read from digits without a leading zero
    is spelled by exactly those digits.
  */
  function ParseBounded(s: string, max: nat): (r: Option<nat>)
    ensures r.Some? ==> r.value <= max
    ensures forall n: nat :: n <= max && s == DecimalString(n) ==> r == Some(n)
    ensures r.Some? && NoLeadingZero(s) ==> s == DecimalString(r.value)
  {
    DecimalSpellingsRead(s);
    if s != "" && AllDigits(s) && DigitsValue(s) <= max then
      CanonicalDigits(s);
      Some(DigitsValue(s))
    else None
  }

  // ---------------------------------------------------------------------
  // Endpoints
  // ---------------------------------------------------------------------

  /** A dotted quad: four pieces separated by dots, each a decimal number up to 255. */
  function ParseIPv4(s: string): Option<IPv4>
  {
    var parts := Split(s, '.');
    if |parts| != 4 then None
    else
      var a, b, c, d := ParseBounded(parts[0], 0xFF), ParseBounded(parts[1], 0xFF),
                        ParseBounded(parts[2], 0xFF), ParseBounded(parts[3], 0xFF);
      if a.Some? && b.Some? && c.Some? && d.Some? then Some(IPv4(a.value, b.value, c.value, d.value))
      else None
  }

  /**
    `ParseEndpoint`: the string must split on ':' into exactly two pieces,
    an address and a port in `0..65535`; otherwise the constructor's error
    names the offending string.
  */
  function ParseEndpoint(s: string): (r: Result<Endpoint, ForwarderError>)
    ensures r.Err? ==> r.error == InvalidEndpoint(s)
  {
    var parts := Split(s, ':');
    if |parts| != 2 then Err(InvalidEndpoint(s))
    else
      match (ParseIPv4(parts[0]), ParseBounded(parts[1], 0xFFFF))
      case (Some(address), Some(port)) => Ok(Endpoint(address, port))
      case _ => Err(InvalidEndpoint(s))
  }

  /**
    Success stated through the position of the first colon: there must be no
    second colon, the text before it must be an address and the text after
    it a port.
  */
  lemma ParseEndpointCharacterized(s: string)
    ensures ParseEndpoint(s).Ok? <==>
      && ':' in s
      && var k := IndexOf(s, ':');
         && ':' !in s[k + 1..]
         && ParseIPv4(s[..k]).Some?
         && ParseBounded(s[k + 1..], 0xFFFF).Some?
    ensures ParseEndpoint(s).Ok? ==>
      var k := IndexOf(s, ':');
      ParseEndpoint(s).value == Endpoint(ParseIPv4(s[..k]).value, ParseBounded(s[k + 1..], 0xFFFF).value)
  {
    if ':' in s {
      var k := IndexOf(s, ':');
      SplitAtFirst(s, ':');
      var parts := Split(s, ':');
      assert parts[0] == s[..k];
      if ':' in s[k + 1..] {
        SplitAtFirst(s[k + 1..], ':');
      } else {
        assert Split(s[k + 1..], ':') == [s[k + 1..]];
      }
    } else {
      assert Split(s, ':') == [s];
    }
  }

  /** The usual spelling of an address. */
  function FormatIPv4(ip: IPv4): string
  {
    Join([DecimalString(ip.a), DecimalString(ip.b), DecimalString(ip.c), DecimalString(ip.d)], '.')
  }

  /** The usual spelling of an endpoint, `IP:PORT`. */
  function FormatEndpoint(e: Endpoint): string
  {
    Join([FormatIPv4(e.address), DecimalString(e.port)], ':')
  }

  /** A decimal spelling holds no dot or colon. */
  lemma DecimalHasNoSeparator(n: nat)
    ensures '.' !in DecimalString(n) && ':' !in DecimalString(n)
  {
    var s := DecimalString(n);
    forall k | 0 <= k < |s|
      ensures s[k] != '.' && s[k] != ':'
    {
      assert IsDigit(s[k]);
    }
  }

  /** Digits without a superfluous leading zero: `0`, or a string not starting with `0`. */
  predicate NoLeadingZero(s: string)
  {
    |s| == 1 || (|s| > 0 && s[0] != '0')
  }

  /** Digits without a leading zero are the decimal spelling of their value. */
  lemma {:induction false} CanonicalDigits(s: string)
    requires AllDigits(s)
    ensures NoLeadingZero(s) ==> s == DecimalString(DigitsValue(s))
    decreases |s|
  {
    var n := DigitsValue(s);
    if NoLeadingZero(s) && |s| > 1 {
      var front := s[..|s| - 1];
      assert front[0] == s[0];
      CanonicalDigits(front);
      var m := DigitsValue(front);
      assert n == m * 10 + (s[|s| - 1] as int - '0' as int);
      assert DecimalString(0) == ['0'];
      assert m != 0;
      assert n / 10 == m && n % 10 == s[|s| - 1] as int - '0' as int;
      assert s == front + [s[|s| - 1]];
    }
  }

  /** Parsing the usual spelling of an address gives the address back; the spelling has no colon. */
  lemma IPv4RoundTrip(ip: IPv4)
    ensures ParseIPv4(FormatIPv4(ip)) == Some(ip)
    ensures ':' !in FormatIPv4(ip)
  {
    var parts := [DecimalString(ip.a), DecimalString(ip.b), DecimalString(ip.c), DecimalString(ip.d)];
    assert forall k :: 0 <= k < 4 ==> '.' !in parts[k] && ':' !in parts[k] by {
      DecimalHasNoSeparator(ip.a);
      DecimalHasNoSeparator(ip.b);
      DecimalHasNoSeparator(ip.c);
      DecimalHasNoSeparator(ip.d);
    }
    assert Split(FormatIPv4(ip), '.') == parts by {
      SplitJoin(parts, '.');
    }
    assert ParseBounded(parts[0], 0xFF) == Some(ip.a as nat);
    assert ParseBounded(parts[1], 0xFF) == Some(ip.b as nat);
    assert ParseBounded(parts[2], 0xFF) == Some(ip.c as nat);
    assert ParseBounded(parts[3], 0xFF) == Some(ip.d as nat);
    JoinAvoids(parts, '.', ':');
  }

  /**
    The converse of `IPv4RoundTrip`: an address read from four numbers
    without leading zeros was written in the usual spelling.
  */
  lemma ParsedAddressSpelled(s: string)
    requires ParseIPv4(s).Some?
    requires forall k :: 0 <= k < |Split(s, '.')| ==> NoLeadingZero(Split(s, '.')[k])
    ensures s == FormatIPv4(ParseIPv4(s).value)
  {
    var parts := Split(s, '.');
    var ip := ParseIPv4(s).value;
    assert parts == [DecimalString(ip.a), DecimalString(ip.b), DecimalString(ip.c), DecimalString(ip.d)];
  }

  /** Parsing the usual spelling of an endpoint gives the endpoint back. */
  lemma EndpointRoundTrip(e: Endpoint)
    ensures ParseEndpoint(FormatEndpoint(e)) == Ok(e)
  {
    var parts := [FormatIPv4(e.address), DecimalString(e.port)];
    DecimalHasNoSeparator(e.port);
    IPv4RoundTrip(e.address);
    SplitJoin(parts, ':');
  }

  /** A string without a colon (`invalid`, `8.8.8.8`) is refused. */
  lemma RejectsWithoutPort(s: string)
    requires ':' !in s
    ensures ParseEndpoint(s) == Err(InvalidEndpoint(s))
  {
    assert Split(s, ':') == [s];
  }

  /** An empty address (`:53`) is refused. */
  lemma RejectsEmptyAddress(port: string)
    ensures ParseEndpoint(":" + port).Err?
  {
    ParseEndpointCharacterized(":" + port);
    assert IndexOf(":" + port, ':') == 0;
    assert |Split("", '.')| == 1;
  }

  /** The first colon of `address:port`, when the address has none, is the one after the address. */
  lemma ColonAfter(address: string, port: string)
    requires ':' !in address
    ensures var s := address + ":" + port;
      && ':' in s && IndexOf(s, ':') == |address|
      && s[..|address|] == address && s[|address| + 1..] == port
  {
    var s := address + ":" + port;
    assert s[..|address|] == address;
    IndexOfUnique(s, ':', |address|);
    assert s[|address| + 1..] == port;
  }

  /** An empty port (`8.8.8.8:`) is refused. */
  lemma RejectsEmptyPort(address: string)
    requires ':' !in address
    ensures ParseEndpoint(address + ":").Err?
  {
    ColonAfter(address, "");
    assert address + ":" == address + ":" + "";
    ParseEndpointCharacterized(address + ":");
  }

  /** A port with a non-digit (`8.8.8.8:abc`) is refused. */
  lemma RejectsNonNumericPort(address: string, port: string, k: nat)
    requires ':' !in address
    requires k < |port| && !IsDigit(port[k])
    ensures ParseEndpoint(address + ":" + port).Err?
  {
    ColonAfter(address, port);
    ParseEndpointCharacterized(address + ":" + port);
  }

  /** An address that is not a dotted quad (`invalid-ip:53`) is refused. */
  lemma RejectsBadAddress(address: string, port: string)
    requires ':' !in address && ParseIPv4(address).None?
    ensures ParseEndpoint(address + ":" + port).Err?
  {
    ColonAfter(address, port);
    ParseEndpointCharacterized(address + ":" + port);
  }

  /** A string with two colons, such as any IPv6 literal with a port, is refused. */
  lemma RejectsSecondColon(before: string, middle: string, after: string)
    ensures ParseEndpoint(before + ":" + middle + ":" + after).Err?
  {
    var s := before + ":" + middle + ":" + after;
    ParseEndpointCharacterized(s);
    if ':' in s {
      var k := IndexOf(s, ':');
      assert s[|before|] == ':';
      assert k <= |before|;
      assert s[k + 1..][|before| + |middle| - k] == ':';
    }
  }

  // ---------------------------------------------------------------------
  // Construction
  // ---------------------------------------------------------------------

  /** The servers used when none are configured, in this order. */
  const DefaultUpstreams: seq<string> := ["8.8.8.8:53", "8.8.4.4:53", "1.1.1.1:53", "1.0.0.1:53"]

  /**
    Every configured string parsed, in order. The first one that does not
    parse fails the whole list with its own error, and nothing is built.
  */
  function ParseAll(configured: seq<string>): (r: Result<seq<Endpoint>, ForwarderError>)
    ensures r.Ok? <==> forall i :: 0 <= i < |configured| ==> ParseEndpoint(configured[i]).Ok?
    ensures r.Ok? ==> |r.value| == |configured|
    ensures r.Ok? ==> forall i :: 0 <= i < |configured| ==> r.value[i] == ParseEndpoint(configured[i]).value
    ensures r.Err? ==> exists i :: 0 <= i < |configured| && FirstBad(configured, i) && r.error == InvalidEndpoint(configured[i])
  {
    var r := MapAll(configured, ParseEndpoint);
    assert r.Err? ==> FirstBad(configured, FirstFailure(configured, ParseEndpoint));
    r
  }

  /** `i` is the first configured string that does not parse. */
  predicate FirstBad(configured: seq<string>, i: nat)
    requires i < |configured|
  {
    && ParseEndpoint(configured[i]).Err?
    && forall j :: 0 <= j < i ==> ParseEndpoint(configured[j]).Ok?
  }

  /** The constructor: the configured list, or the defaults when there is none. */
  function Upstreams(configured: Option<seq<string>>): (r: Result<seq<Endpoint>, ForwarderError>)
    ensures configured.None? ==> r == Ok(PublicResolvers)
    ensures configured.Some? ==>
      (r.Ok? <==> forall i :: 0 <= i < |configured.value| ==> ParseEndpoint(configured.value[i]).Ok?)
  {
    match configured
    case None => DefaultUpstreamsParse(); ParseAll(DefaultUpstreams)
    case Some(list) => ParseAll(list)
  }

  /** The four public resolvers Google and Cloudflare run, on port 53. */
  const PublicResolvers: seq<Endpoint> := [
    Endpoint(IPv4(8, 8, 8, 8), 53), Endpoint(IPv4(8, 8, 4, 4), 53),
    Endpoint(IPv4(1, 1, 1, 1), 53), Endpoint(IPv4(1, 0, 0, 1), 53)]

  /** The spelling of an address whose four numbers are single digits. */
  lemma SmallAddressSpelled(ip: IPv4)
    requires ip.a < 10 && ip.b < 10 && ip.c < 10 && ip.d < 10
    ensures FormatIPv4(ip) == [DecimalString(ip.a)[0], '.', DecimalString(ip.b)[0], '.', DecimalString(ip.c)[0], '.', DecimalString(ip.d)[0]]
  {
    var a, b, c, d := DecimalString(ip.a), DecimalString(ip.b), DecimalString(ip.c), DecimalString(ip.d);
    assert a == [a[0]] && b == [b[0]] && c == [c[0]] && d == [d[0]];
    assert Join([c, d], '.') == c + ['.'] + d;
    assert Join([b, c, d], '.') == b + ['.'] + Join([c, d], '.') by {
      assert [b, c, d][1..] == [c, d];
    }
    assert Join([a, b, c, d], '.') == a + ['.'] + Join([b, c, d], '.') by {
      assert [a, b, c, d][1..] == [b, c, d];
    }
  }

  /** The spelling of an endpoint on port 53. */
  lemma OnPort53(e: Endpoint)
    requires e.port == 53
    ensures FormatEndpoint(e) == FormatIPv4(e.address) + ":53"
  {
    var address, port := FormatIPv4(e.address), DecimalString(e.port);
    assert port == "53" by {
      assert DecimalString(5) == ['5'];
      assert port == DecimalString(5) + ['3'];
    }
    assert Join([address, port], ':') == address + [':'] + Join([port], ':') by {
      assert [address, port][1..] == [port];
    }
    assert address + [':'] + port == address + ":53";
  }

  /** One default string is the usual spelling of the public resolver at the same position. */
  lemma DefaultUpstreamSpelled(i: nat)
    requires i < 4
    ensures DefaultUpstreams[i] == FormatEndpoint(PublicResolvers[i])
  {
    var e := PublicResolvers[i];
    OnPort53(e);
    SmallAddressSpelled(e.address);
    assert DecimalString(0) == "0" && DecimalString(1) == "1" && DecimalString(4) == "4" && DecimalString(8) == "8";
  }

  /** The built-in strings parse to exactly the public resolvers, in that order. */
  lemma DefaultUpstreamsParse()
    ensures ParseAll(DefaultUpstreams) == Ok(PublicResolvers)
  {
    forall i | 0 <= i < 4
      ensures ParseEndpoint(DefaultUpstreams[i]) == Ok(PublicResolvers[i])
    {
      DefaultUpstreamSpelled(i);
      EndpointRoundTrip(PublicResolvers[i]);
    }
    MapAllSucceeds(DefaultUpstreams, ParseEndpoint, PublicResolvers);
  }

  // ---------------------------------------------------------------------
  // Forwarding
  // ---------------------------------------------------------------------

  /**
    The network as the forwarder meets it: `send(i, server, query)` is what
    the `i`-th attempt of one forwarding, made to `server`, produced. Every
    pass of the loop opens a fresh socket with its own timeout, so attempts
    are told apart by their position even when a server is listed twice.
  */
  type Network = (nat, Endpoint, seq<byte>) -> Attempt

  /** The outcome of the attempt on the server at position `i`. */
  function AttemptAt(servers: seq<Endpoint>, query: seq<byte>, send: Network, i: nat): Attempt
    requires i < |servers|
  {
    send(i, servers[i], query)
  }

  /** The first position from `k` on whose attempt produced a reply, or `|servers|` when none did. */
  function FirstReplyFrom(servers: seq<Endpoint>, query: seq<byte>, send: Network, k: nat): (i: nat)
    requires k <= |servers|
    ensures k <= i <= |servers|
    ensures forall j :: k <= j < i ==> AttemptAt(servers, query, send, j).Failed?
    ensures i < |servers| ==> AttemptAt(servers, query, send, i).Reply?
    decreases |servers| - k
  {
    if k == |servers| then k
    else if AttemptAt(servers, query, send, k).Reply? then k
    else FirstReplyFrom(servers, query, send, k + 1)
  }

  /** The position of the first server whose attempt produced a reply, or `|servers|` when none did. */
  function FirstReply(servers: seq<Endpoint>, query: seq<byte>, send: Network): (i: nat)
    ensures i <= |servers|
    ensures forall j :: 0 <= j < i ==> AttemptAt(servers, query, send, j).Failed?
    ensures i < |servers| ==> AttemptAt(servers, query, send, i).Reply?
  {
    FirstReplyFrom(servers, query, send, 0)
  }

  /** The first reply is at `i` exactly when every attempt before `i` failed and the one at `i`, if any, replied. */
  lemma FirstReplyIs(servers: seq<Endpoint>, query: seq<byte>, send: Network, i: nat)
    requires i <= |servers|
    ensures FirstReply(servers, query, send) == i <==>
      && (forall j :: 0 <= j < i ==> AttemptAt(servers, query, send, j).Failed?)
      && (i < |servers| ==> AttemptAt(servers, query, send, i).Reply?)
  {
  }

  /**
    The outcome of forwarding: the reply of the first attempt, in list
    order, that produced one, or `AllUpstreamsFailed` when none did (in
    particular when there are no servers).
  */
  function Forward(servers: seq<Endpoint>, query: seq<byte>, send: Network): (r: Result<seq<byte>, ForwarderError>)
    ensures r.Ok? <==> exists j :: 0 <= j < |servers| && AttemptAt(servers, query, send, j).Reply?
    ensures r.Ok? ==> exists i :: 0 <= i < |servers| && AttemptAt(servers, query, send, i) == Reply(r.value)
                                 && (forall j :: 0 <= j < i ==> AttemptAt(servers, query, send, j).Failed?)
    ensures r.Err? ==> r.error == AllUpstreamsFailed
  {
    var i := FirstReply(servers, query, send);
    if i < |servers| then Ok(AttemptAt(servers, query, send, i).response) else Err(AllUpstreamsFailed)
  }

  /**
    `ForwardDnsQueryAsync`: the servers are tried in order, each sent the
    query exactly as given; the first reply is returned, and every failure
    is absorbed and the next server tried. `contacted` lists the servers the
    query was sent to: those up to the first that replied, or all of them.
  */
  method ForwardDnsQuery(servers: seq<Endpoint>, query: seq<byte>, send: Network)
    returns (result: Result<seq<byte>, ForwarderError>, contacted: seq<Endpoint>)
    ensures result == Forward(servers, query, send)
    ensures result.Ok? ==> contacted == servers[..FirstReply(servers, query, send) + 1]
    ensures result.Err? ==> contacted == servers
  {
    contacted := [];
    var k := 0;
    while k < |servers|
      invariant k <= |servers|
      invariant contacted == servers[..k]
      invariant forall j :: 0 <= j < k ==> AttemptAt(servers, query, send, j).Failed?
    {
      contacted := contacted + [servers[k]];
      var attempt := send(k, servers[k], query);
      if attempt.Reply? {
        FirstReplyIs(servers, query, send, k);
        assert contacted == servers[..k + 1];
        return Ok(attempt.response), contacted;
      }
      k := k + 1;
    }
    result := Err(AllUpstreamsFailed);
  }

  /** A server after the first one that replies is never sent the query. */
  lemma LaterServersUntouched(servers: seq<Endpoint>, query: seq<byte>, send: Network, i: nat, j: nat)
    requires i < j < |servers|
    requires AttemptAt(servers, query, send, i).Reply?
    ensures FirstReply(servers, query, send) <= i < j
  {
  }

  /**
    A server listed twice is tried twice, and the second attempt stands on
    its own: when the first times out and the second replies, the query
    succeeds with that reply.
  */
  lemma RepeatedServerRetried(e: Endpoint, query: seq<byte>, reply: seq<byte>)
    ensures var send: Network := (i: nat, server: Endpoint, q: seq<byte>) => if i == 0 then Failed else Reply(reply);
      Forward([e, e], query, send) == Ok(reply)
  {
    var send: Network := (i: nat, server: Endpoint, q: seq<byte>) => if i == 0 then Failed else Reply(reply);
    assert AttemptAt([e, e], query, send, 0) == Failed;
    assert AttemptAt([e, e], query, send, 1) == Reply(reply);
    FirstReplyIs([e, e], query, send, 1);
  }
}
