/** Callback handling: the server-side request forgery checks applied to a
    callback URL before a request is accepted, and delivery of the result
    to that URL with a bounded number of attempts and exponential backoff.

    URL parsing and IP-literal parsing are foreign code and appear as
    function parameters; so do the clock readings. Each delivery attempt's
    outcome (a status code with its body, or a transport error) is an
    input, and the sleeps between attempts are returned as the list of
    delays that were requested. */
module Callback {
  import opened Wrappers
  import opened PyStr
  import opened Models
  import opened Repository

  // ---------------------------------------------------------------------
  // IP addresses and networks

  datatype IpVersion = V4 | V6

  function AddressBits(v: IpVersion): nat {
    if v == V4 then 32 else 128
  }

  function Pow2(n: nat): (p: nat)
    ensures p >= 1
  {
    if n == 0 then 1 else 2 * Pow2(n - 1)
  }

  /** An address is its version and its value as an unsigned number. */
  datatype IpAddress = IpAddress(version: IpVersion, value: nat)

  /** A network is its version, its base address and its prefix length. */
  datatype IpNetwork = IpNetwork(version: IpVersion, address: nat, prefixLen: nat) {
    /** How many addresses share the prefix. */
    function HostSize(): (n: nat)
      ensures n >= 1
    {
      if prefixLen <= AddressBits(version) then Pow2(AddressBits(version) - prefixLen) else 1
    }

    /** What `ip_network` accepts in strict mode: a prefix no longer than
        the address, and no host bits set in the base address. */
    predicate WellFormed() {
      && prefixLen <= AddressBits(version)
      && address < Pow2(AddressBits(version))
      && address % HostSize() == 0
    }
  }

  /** `ip in net`: same version, and the address agrees with the base
      address on the prefix bits (masking with the netmask is dropping the
      host bits, i.e. dividing by the host size). An address never belongs
      to a network of the other version. */
  predicate InNetwork(ip: IpAddress, net: IpNetwork) {
    ip.version == net.version && ip.value / net.HostSize() == net.address / net.HostSize()
  }

  lemma {:induction false} Pow2Add(a: nat, b: nat)
    ensures Pow2(a + b) == Pow2(a) * Pow2(b)
  {
    if a > 0 {
      Pow2Add(a - 1, b);
    }
  }

  /** The host sizes and address-space size of the blocked IPv4 networks. */
  lemma Pow2V4Values()
    ensures Pow2(16) == 0x1_0000 && Pow2(20) == 0x10_0000 && Pow2(24) == 0x100_0000
    ensures Pow2(32) == 0x1_0000_0000
  {
    assert Pow2(4) == 0x10 && Pow2(8) == 0x100;
    Pow2Add(8, 8);
    Pow2Add(16, 4);
    Pow2Add(16, 8);
    Pow2Add(16, 16);
  }

  /** The host sizes and address-space size of the blocked IPv6 networks. */
  lemma Pow2V6Values()
    ensures Pow2(0) == 1
    ensures Pow2(118) == 0x40_0000_0000_0000_0000_0000_0000_0000
    ensures Pow2(121) == 0x200_0000_0000_0000_0000_0000_0000_0000
    ensures Pow2(128) == 0x1_0000_0000_0000_0000_0000_0000_0000_0000
  {
    Pow2V4Values();
    assert Pow2(6) == 0x40 && Pow2(9) == 0x200;
    Pow2Add(32, 32);
    Pow2Add(64, 64);
    Pow2Add(64, 32);
    Pow2Add(96, 16);
    Pow2Add(112, 6);
    Pow2Add(112, 9);
  }

  /** Dividing by p keeps exactly the numbers of the block [q * p, q * p + p)
      together. */
  lemma SameQuotientIffInBlock(x: nat, q: nat, p: nat)
    requires p >= 1
    ensures x / p == q <==> q * p <= x < q * p + p
  {
    var d, m := x / p, x % p;
    assert x == d * p + m && 0 <= m < p;
    if d < q {
      MulLe(d + 1, q, p);
    } else if d > q {
      MulLe(q + 1, d, p);
    }
  }

  lemma MulLe(a: nat, b: nat, p: nat)
    requires a <= b
    ensures a * p <= b * p
  {
    assert b * p == a * p + (b - a) * p;
  }

  /** For a well-formed network, membership is the address range
      [base, base + host size). */
  lemma InNetworkRange(ip: IpAddress, net: IpNetwork)
    requires net.WellFormed()
    ensures InNetwork(ip, net) <==> ip.version == net.version && net.address <= ip.value < net.address + net.HostSize()
  {
    BlockOfBase(ip.value, net.address, net.HostSize());
  }

  /** For a base a that is a multiple of p, x has a's quotient exactly
      when it lies in [a, a + p). */
  lemma BlockOfBase(x: nat, a: nat, p: nat)
    requires p >= 1 && a % p == 0
    ensures x / p == a / p <==> a <= x < a + p
  {
    var q := a / p;
    assert a == q * p;
    SameQuotientIffInBlock(x, q, p);
  }

  // ---------------------------------------------------------------------
  // Denylists and constants

  /** Private, loopback and link-local networks of both versions. */
  const BLOCKED_IP_RANGES: seq<IpNetwork> := [
    IpNetwork(V4, 0x0A00_0000, 8),     // 10.0.0.0/8
    IpNetwork(V4, 0xAC10_0000, 12),    // 172.16.0.0/12
    IpNetwork(V4, 0xC0A8_0000, 16),    // 192.168.0.0/16
    IpNetwork(V4, 0x7F00_0000, 8),     // 127.0.0.0/8
    IpNetwork(V4, 0xA9FE_0000, 16),    // 169.254.0.0/16, link-local
    IpNetwork(V6, 1, 128),             // ::1/128, loopback
    IpNetwork(V6, 0xFC00_0000_0000_0000_0000_0000_0000_0000, 7),   // fc00::/7, unique local
    IpNetwork(V6, 0xFE80_0000_0000_0000_0000_0000_0000_0000, 10)   // fe80::/10, link-local
  ]

  /** Names that are refused, together with all their subdomains. */
  const BLOCKED_HOSTNAMES: seq<string> := ["localhost", "metadata.google.internal", "169.254.169.254"]

  const MAX_RETRY_ATTEMPTS: nat := 5
  const BASE_RETRY_DELAY_SECONDS: nat := 1
  const CALLBACK_TIMEOUT_SECONDS: nat := 10

  /** The number of addresses in each blocked IPv4 network. */
  lemma BlockedV4HostSizes()
    ensures BLOCKED_IP_RANGES[0].HostSize() == 0x100_0000
    ensures BLOCKED_IP_RANGES[1].HostSize() == 0x10_0000
    ensures BLOCKED_IP_RANGES[2].HostSize() == 0x1_0000
    ensures BLOCKED_IP_RANGES[3].HostSize() == 0x100_0000
    ensures BLOCKED_IP_RANGES[4].HostSize() == 0x1_0000
  {
    Pow2V4Values();
  }

  /** The number of addresses in each blocked IPv6 network. */
  lemma BlockedV6HostSizes()
    ensures BLOCKED_IP_RANGES[5].HostSize() == 1
    ensures BLOCKED_IP_RANGES[6].HostSize() == 0x200_0000_0000_0000_0000_0000_0000_0000
    ensures BLOCKED_IP_RANGES[7].HostSize() == 0x40_0000_0000_0000_0000_0000_0000_0000
  {
    Pow2V6Values();
  }

  /** Each blocked network is what `ip_network` accepts in strict mode. */
  lemma BlockedRangesWellFormed()
    ensures forall i :: 0 <= i < |BLOCKED_IP_RANGES| ==> BLOCKED_IP_RANGES[i].WellFormed()
  {
    BlockedV4WellFormed();
    BlockedV6WellFormed();
  }

  lemma BlockedV4WellFormed()
    ensures forall i :: 0 <= i < 5 ==> BLOCKED_IP_RANGES[i].WellFormed()
  {
    Pow2V4Values();
    BlockedV4HostSizes();
  }

  lemma BlockedV6WellFormed()
    ensures forall i :: 5 <= i < 8 ==> BLOCKED_IP_RANGES[i].WellFormed()
  {
    Pow2V6Values();
    BlockedV6HostSizes();
  }

  // ---------------------------------------------------------------------
  // validate_callback_url

  /** What the URL parser yields: the scheme and the hostname, if any. */
  datatype UrlParts = UrlParts(scheme: string, hostname: Option<string>)

  /** The reasons a callback URL is refused. */
  datatype ValidationError =
    | InvalidFormat(reason: string)
    | InvalidScheme(scheme: string)
    | MissingHostname
    | BlockedHostname(hostname: string)
    | BlockedIpRange(hostname: string)
  {
    /** The exception message. */
    function Message(): string {
      match this
      case InvalidFormat(reason) => "Invalid URL format: " + reason
      case InvalidScheme(scheme) => "Invalid scheme: " + scheme + ". Only http/https allowed."
      case MissingHostname => "Missing hostname in URL"
      case BlockedHostname(hostname) => "Blocked hostname: " + hostname
      case BlockedIpRange(hostname) => "Blocked IP range: " + hostname
    }
  }

  /** The lower-cased hostname is the blocked name or one of its
      subdomains. */
  predicate DeniedBy(hostname: string, blocked: string) {
    var h := Lower(hostname);
    h == blocked || EndsWith(h, "." + blocked)
  }

  /** The scan over the hostname denylist. */
  function HostnameDenied(hostname: string, names: seq<string>): (denied: bool)
    ensures denied <==> exists i :: 0 <= i < |names| && DeniedBy(hostname, names[i])
  {
    if names == [] then false
    else DeniedBy(hostname, names[0]) || HostnameDenied(hostname, names[1..])
  }

  /** The scan over the blocked networks. */
  function AddressBlocked(ip: IpAddress, nets: seq<IpNetwork>): (blocked: bool)
    ensures blocked <==> exists i :: 0 <= i < |nets| && InNetwork(ip, nets[i])
  {
    if nets == [] then false
    else InNetwork(ip, nets[0]) || AddressBlocked(ip, nets[1..])
  }

  /** `validate_callback_url`: Ok when the URL is acceptable, otherwise the
      first rule it breaks, in the order scheme, hostname present, hostname
      denylist, IP range. A hostname that is not an IP literal is accepted
      without being resolved. */
  function ValidateCallbackUrl(url: string, urlParse: string -> Result<UrlParts, string>,
                               ipParse: string -> Option<IpAddress>): (r: Result<(), ValidationError>)
    ensures urlParse(url).Err? ==> r == Err(InvalidFormat(urlParse(url).error))
    ensures r.Ok? <==>
      && urlParse(url).Ok?
      && (urlParse(url).value.scheme == "http" || urlParse(url).value.scheme == "https")
      && urlParse(url).value.hostname.Some? && urlParse(url).value.hostname.value != ""
      && (forall i :: 0 <= i < |BLOCKED_HOSTNAMES| ==> !DeniedBy(urlParse(url).value.hostname.value, BLOCKED_HOSTNAMES[i]))
      && (ipParse(urlParse(url).value.hostname.value).Some? ==>
            forall i :: 0 <= i < |BLOCKED_IP_RANGES| ==>
              !InNetwork(ipParse(urlParse(url).value.hostname.value).value, BLOCKED_IP_RANGES[i]))
  {
    match urlParse(url)
    case Err(reason) => Err(InvalidFormat(reason))
    case Ok(parts) =>
      if parts.scheme != "http" && parts.scheme != "https" then Err(InvalidScheme(parts.scheme))
      else if parts.hostname.None? || parts.hostname.value == "" then Err(MissingHostname)
      else
        var hostname := parts.hostname.value;
        if HostnameDenied(hostname, BLOCKED_HOSTNAMES) then Err(BlockedHostname(hostname))
        else if ipParse(hostname).Some? && AddressBlocked(ipParse(hostname).value, BLOCKED_IP_RANGES) then
          Err(BlockedIpRange(hostname))
        else Ok(())
  }

  /** Each rule yields its own error: a bad scheme (the empty one
      included), then a missing or empty hostname. */
  lemma SchemeAndHostnameRules(url: string, urlParse: string -> Result<UrlParts, string>,
                               ipParse: string -> Option<IpAddress>, parts: UrlParts)
    requires urlParse(url) == Ok(parts)
    ensures parts.scheme != "http" && parts.scheme != "https" ==>
      ValidateCallbackUrl(url, urlParse, ipParse) == Err(InvalidScheme(parts.scheme))
    ensures (parts.scheme == "http" || parts.scheme == "https") && (parts.hostname.None? || parts.hostname == Some("")) ==>
      ValidateCallbackUrl(url, urlParse, ipParse) == Err(MissingHostname)
  {
  }

  /** With an http(s) scheme, a hostname that is a denylisted name or a
      subdomain of one, in any letter case, is refused as a blocked
      hostname, before any IP check. */
  lemma DeniedHostnameRule(url: string, urlParse: string -> Result<UrlParts, string>,
                           ipParse: string -> Option<IpAddress>, scheme: string, hostname: string, i: nat)
    requires scheme == "http" || scheme == "https"
    requires urlParse(url) == Ok(UrlParts(scheme, Some(hostname))) && hostname != ""
    requires i < |BLOCKED_HOSTNAMES| && DeniedBy(hostname, BLOCKED_HOSTNAMES[i])
    ensures ValidateCallbackUrl(url, urlParse, ipParse) == Err(BlockedHostname(hostname))
  {
  }

  /** An IP-literal hostname inside a blocked network, and not on the
      hostname denylist, is refused as a blocked IP range. */
  lemma BlockedAddressRule(url: string, urlParse: string -> Result<UrlParts, string>,
                           ipParse: string -> Option<IpAddress>, scheme: string, hostname: string, i: nat)
    requires scheme == "http" || scheme == "https"
    requires urlParse(url) == Ok(UrlParts(scheme, Some(hostname))) && hostname != ""
    requires !HostnameDenied(hostname, BLOCKED_HOSTNAMES)
    requires ipParse(hostname).Some? && i < |BLOCKED_IP_RANGES| && InNetwork(ipParse(hostname).value, BLOCKED_IP_RANGES[i])
    ensures ValidateCallbackUrl(url, urlParse, ipParse) == Err(BlockedIpRange(hostname))
  {
  }

  // Only helps the solver evaluate one literal for a nearby example; no source counterpart.
  lemma LowerOfApiLocalhost(s: string)
    requires s == "API.LOCALHOST"
    ensures Lower(s) == "api.localhost"
  {
  }

  /** The denylist compares case-insensitively and covers subdomains. */
  lemma CapitalisedSubdomainDenied(hostname: string)
    requires hostname == "API.LOCALHOST"
    ensures HostnameDenied(hostname, BLOCKED_HOSTNAMES)
  {
    LowerOfApiLocalhost(hostname);
    ApiLocalhostIsSubdomain("api.localhost", BLOCKED_HOSTNAMES[0]);
  }

  // Only helps the solver evaluate one literal for a nearby example; no source counterpart.
  lemma ApiLocalhostIsSubdomain(h: string, blocked: string)
    requires h == "api.localhost" && blocked == "localhost"
    ensures EndsWith(h, "." + blocked)
  {
    assert h[|h| - 10..] == "." + blocked;
  }

  // Only helps the solver evaluate one literal for a nearby example; no source counterpart.
  lemma LowerOfMetadataAddress(s: string)
    requires s == "169.254.169.254"
    ensures Lower(s) == s
  {
    LowerWithoutCapitals(s);
  }

  /** The listed names themselves are denied: "localhost"... */
  lemma LocalhostDenied(hostname: string)
    requires hostname == "localhost"
    ensures HostnameDenied(hostname, BLOCKED_HOSTNAMES)
  {
    LowerOfLocalhost(hostname);
    assert DeniedBy(hostname, BLOCKED_HOSTNAMES[0]);
  }

  // Only helps the solver evaluate one literal for a nearby example; no source counterpart.
  lemma LowerOfLocalhost(s: string)
    requires s == "localhost"
    ensures Lower(s) == s
  {
    LowerWithoutCapitals(s);
  }

  /** ... and the cloud metadata address, which is refused as a name
      before the IP check is reached. */
  lemma MetadataAddressDenied(hostname: string)
    requires hostname == "169.254.169.254"
    ensures HostnameDenied(hostname, BLOCKED_HOSTNAMES)
  {
    LowerOfMetadataAddress(hostname);
    assert DeniedBy(hostname, BLOCKED_HOSTNAMES[2]);
  }

  /** "notlocalhost" only ends in "localhost", without the dot, and is not
      denied. */
  lemma SuffixWithoutDotNotDenied(hostname: string)
    requires hostname == "notlocalhost"
    ensures !HostnameDenied(hostname, BLOCKED_HOSTNAMES)
  {
    NotLocalhostLower(hostname);
    NotLocalhostNotDotLocalhost(hostname, BLOCKED_HOSTNAMES[0]);
    assert |hostname| < |"." + BLOCKED_HOSTNAMES[1]|;
    assert |hostname| < |"." + BLOCKED_HOSTNAMES[2]| && hostname[0] == 'n';
  }

  // Only helps the solver evaluate one literal for a nearby example; no source counterpart.
  lemma NotLocalhostLower(s: string)
    requires s == "notlocalhost"
    ensures Lower(s) == s
  {
    LowerWithoutCapitals(s);
  }

  // Only helps the solver evaluate one literal for a nearby example; no source counterpart.
  lemma NotLocalhostNotDotLocalhost(s: string, blocked: string)
    requires s == "notlocalhost" && blocked == "localhost"
    ensures s != blocked && !EndsWith(s, "." + blocked)
  {
    assert s[2] == 't';
  }

  /** "https://API.LOCALHOST/..." is refused as a blocked hostname. */
  lemma UpperCaseSubdomainRejected(url: string, urlParse: string -> Result<UrlParts, string>,
                                   ipParse: string -> Option<IpAddress>)
    requires urlParse(url) == Ok(UrlParts("https", Some("API.LOCALHOST")))
    ensures ValidateCallbackUrl(url, urlParse, ipParse) == Err(BlockedHostname("API.LOCALHOST"))
  {
    CapitalisedSubdomainDenied("API.LOCALHOST");
  }

  /** "http://notlocalhost/..." is accepted when "notlocalhost" is not an
      IP literal: no name resolution takes place. */
  lemma SuffixWithoutDotAccepted(url: string, urlParse: string -> Result<UrlParts, string>,
                                 ipParse: string -> Option<IpAddress>)
    requires urlParse(url) == Ok(UrlParts("http", Some("notlocalhost")))
    requires ipParse("notlocalhost").None?
    ensures ValidateCallbackUrl(url, urlParse, ipParse) == Ok(())
  {
    SuffixWithoutDotNotDenied("notlocalhost");
  }

  /** IPv4 loopback, private and metadata addresses and IPv6 loopback
      are refused. */
  lemma BlockedAddressExamples(ip: IpAddress)
    requires ip in {IpAddress(V4, 0x7F00_0001), IpAddress(V4, 0x0A01_0203), IpAddress(V4, 0xC0A8_0005),
                    IpAddress(V4, 0xA9FE_A9FE), IpAddress(V6, 1)}
    ensures AddressBlocked(ip, BLOCKED_IP_RANGES)
  {
    BlockedV4HostSizes();
    BlockedV6HostSizes();
    if ip.value == 0x7F00_0001 {
      assert InNetwork(ip, BLOCKED_IP_RANGES[3]);
    } else if ip.value == 0x0A01_0203 {
      assert InNetwork(ip, BLOCKED_IP_RANGES[0]);
    } else if ip.value == 0xC0A8_0005 {
      assert InNetwork(ip, BLOCKED_IP_RANGES[2]);
    } else if ip.value == 0xA9FE_A9FE {
      assert InNetwork(ip, BLOCKED_IP_RANGES[4]);
    } else {
      assert InNetwork(ip, BLOCKED_IP_RANGES[5]);
    }
  }

  /** The IPv4-mapped form of 127.0.0.1, `::ffff:127.0.0.1`, is an IPv6
      address outside all three IPv6 networks, so the range check lets it
      through even though it denotes the loopback address. */
  lemma MappedLoopbackNotBlocked()
    ensures !AddressBlocked(IpAddress(V6, 0xFFFF_7F00_0001), BLOCKED_IP_RANGES)
  {
    var ip := IpAddress(V6, 0xFFFF_7F00_0001);
    BlockedV6HostSizes();
    forall i | 0 <= i < |BLOCKED_IP_RANGES| ensures !InNetwork(ip, BLOCKED_IP_RANGES[i]) {
      if i == 6 {
        assert ip.value / 0x200_0000_0000_0000_0000_0000_0000_0000 == 0;
      } else if i == 7 {
        assert ip.value / 0x40_0000_0000_0000_0000_0000_0000_0000 == 0;
      }
    }
  }

  // ---------------------------------------------------------------------
  // send_callback_with_retry: specification

  /** What one POST attempt came to. */
  datatype AttemptOutcome =
    | HttpResponse(statusCode: int, body: string)
    | TransportError(message: string)

  /** An attempt succeeds when the server answers with a status below 400. */
  predicate Succeeded(o: AttemptOutcome) {
    o.HttpResponse? && o.statusCode < 400
  }

  /** The error recorded for a failed attempt: the status code and the
      first 200 characters of the body, or the exception text. */
  function AttemptError(o: AttemptOutcome): (msg: string)
    ensures o.HttpResponse? ==>
      var head := "HTTP " + IntToDecimal(o.statusCode) + ": ";
      && head <= msg
      && msg[|head|..] <= o.body
      && |msg| - |head| == (if |o.body| < 200 then |o.body| else 200)
    ensures o.TransportError? ==> msg == o.message
  {
    match o
    case HttpResponse(code, body) => "HTTP " + IntToDecimal(code) + ": " + Take(body, 200)
    case TransportError(message) => message
  }

  /** The number of attempts that fail before the first success: all of
      them when none succeeds. */
  function FailuresBeforeSuccess(outcomes: seq<AttemptOutcome>): (k: nat)
    ensures k <= |outcomes|
    ensures forall i :: 0 <= i < k ==> !Succeeded(outcomes[i])
    ensures k < |outcomes| ==> Succeeded(outcomes[k])
  {
    if outcomes == [] || Succeeded(outcomes[0]) then 0 else 1 + FailuresBeforeSuccess(outcomes[1..])
  }

  /** The callback write after failed attempt number i + 1. */
  function PendingUpdate(outcomes: seq<AttemptOutcome>, i: nat): CallbackUpdate
    requires i < |outcomes|
  {
    CallbackUpdate(CallbackStatus.Pending, i + 1, Some(AttemptError(outcomes[i])), None)
  }

  /** The writes after the first n attempts, all of which failed. */
  function PendingWrites(requestId: string, outcomes: seq<AttemptOutcome>, n: nat): (ws: seq<StoreWrite>)
    requires n <= |outcomes|
    ensures |ws| == n
    ensures forall i :: 0 <= i < n ==> ws[i] == CallbackWritten(requestId, PendingUpdate(outcomes, i))
  {
    if n == 0 then [] else PendingWrites(requestId, outcomes, n - 1) + [CallbackWritten(requestId, PendingUpdate(outcomes, n - 1))]
  }

  const EXHAUSTED_ERROR_PREFIX := "Max retries (5) exhausted. Last error: "

  /** The last callback write: SENT with the number of the successful
      attempt, or FAILED after five failures with the last error. */
  function FinalUpdate(outcomes: seq<AttemptOutcome>, sentAt: Timestamp): CallbackUpdate
    requires |outcomes| == MAX_RETRY_ATTEMPTS
  {
    var k := FailuresBeforeSuccess(outcomes);
    if k < MAX_RETRY_ATTEMPTS then CallbackUpdate(Sent, k + 1, None, Some(sentAt))
    else CallbackUpdate(CallbackStatus.Failed, MAX_RETRY_ATTEMPTS,
                        Some(EXHAUSTED_ERROR_PREFIX + AttemptError(outcomes[MAX_RETRY_ATTEMPTS - 1])), None)
  }

  /** Every store write a delivery performs, in order. */
  function DeliveryWrites(requestId: string, outcomes: seq<AttemptOutcome>, sentAt: Timestamp): seq<StoreWrite>
    requires |outcomes| == MAX_RETRY_ATTEMPTS
  {
    PendingWrites(requestId, outcomes, FailuresBeforeSuccess(outcomes)) + [CallbackWritten(requestId, FinalUpdate(outcomes, sentAt))]
  }

  /** How many POSTs a delivery makes. */
  function AttemptsMade(outcomes: seq<AttemptOutcome>): (n: nat)
    requires |outcomes| == MAX_RETRY_ATTEMPTS
    ensures 1 <= n <= MAX_RETRY_ATTEMPTS
  {
    var k := FailuresBeforeSuccess(outcomes);
    if k < MAX_RETRY_ATTEMPTS then k + 1 else MAX_RETRY_ATTEMPTS
  }

  /** The sleeps after the first n failed attempts: 1, 2, 4, ... seconds. */
  function BackoffDelays(n: nat): (ds: seq<nat>)
    ensures |ds| == n
    ensures forall i :: 0 <= i < n ==> ds[i] == BASE_RETRY_DELAY_SECONDS * Pow2(i)
  {
    if n == 0 then [] else BackoffDelays(n - 1) + [BASE_RETRY_DELAY_SECONDS * Pow2(n - 1)]
  }

  /** The body POSTed to the callback URL: COMPLETED exactly when a
      result is passed. */
  function PayloadFor(requestId: string, result: Option<WorkResult>, error: Option<string>, now: Timestamp): (p: CallbackPayload)
    ensures p.requestId == requestId && p.result == result && p.error == error && p.timestamp == now
    ensures p.status == Completed <==> result.Some?
    ensures p.status == Completed || p.status == RequestStatus.Failed
  {
    CallbackPayload(requestId, if result.Some? then Completed else RequestStatus.Failed, result, error, now)
  }

  /** One POST of the payload to the callback URL. */
  datatype Post = Post(url: string, body: CallbackPayload)

  // ---------------------------------------------------------------------
  // send_callback_with_retry: the loop

  /** `send_callback_with_retry`: attempts delivery up to five times.
      After every failed attempt the callback status is PENDING with that
      attempt's number and error, and the loop sleeps 2^(n-1) seconds
      unless it was the fifth; the first success writes SENT and ends the
      loop; five failures write FAILED with the last error. `payloadTime`
      stamps the payload and `sentTime` is the time of sending. */
  method SendCallbackWithRetry(store: RequestStore, requestId: string, callbackUrl: string,
                               result: Option<WorkResult>, error: Option<string>,
                               outcomes: seq<AttemptOutcome>, payloadTime: Timestamp, sentTime: Timestamp)
    returns (delivered: bool, posts: seq<Post>, delays: seq<nat>)
    requires store.Valid()
    requires |outcomes| == MAX_RETRY_ATTEMPTS
    modifies store
    ensures store.Valid()
    ensures delivered <==> FailuresBeforeSuccess(outcomes) < MAX_RETRY_ATTEMPTS
    ensures |posts| == AttemptsMade(outcomes)
    ensures forall i :: 0 <= i < |posts| ==> posts[i] == Post(callbackUrl, PayloadFor(requestId, result, error, payloadTime))
    ensures delays == BackoffDelays(if delivered then FailuresBeforeSuccess(outcomes) else MAX_RETRY_ATTEMPTS - 1)
    ensures store.log == old(store.log) + DeliveryWrites(requestId, outcomes, sentTime)
    ensures store.table == WithCallback(old(store.table), requestId, FinalUpdate(outcomes, sentTime))
  {
    var payload := PayloadFor(requestId, result, error, payloadTime);
    var errorMsg;
    delivered, errorMsg, posts, delays := AttemptDelivery(store, requestId, callbackUrl, payload, outcomes, sentTime);
    if !delivered {
      LaterWriteOverwrites(old(store.table), requestId, outcomes, MAX_RETRY_ATTEMPTS, FinalUpdate(outcomes, sentTime));
      store.UpdateCallbackStatus(requestId, CallbackStatus.Failed, MAX_RETRY_ATTEMPTS, Some(EXHAUSTED_ERROR_PREFIX + errorMsg));
    }
  }

  /** The attempt loop of `send_callback_with_retry`. It returns true right
      after writing SENT for the first successful attempt; otherwise it
      returns false after five PENDING writes, with the last error. */
  method AttemptDelivery(store: RequestStore, requestId: string, callbackUrl: string, payload: CallbackPayload,
                         outcomes: seq<AttemptOutcome>, sentTime: Timestamp)
    returns (delivered: bool, errorMsg: string, posts: seq<Post>, delays: seq<nat>)
    requires store.Valid()
    requires |outcomes| == MAX_RETRY_ATTEMPTS
    modifies store
    ensures store.Valid()
    ensures delivered <==> FailuresBeforeSuccess(outcomes) < MAX_RETRY_ATTEMPTS
    ensures |posts| == AttemptsMade(outcomes)
    ensures forall i :: 0 <= i < |posts| ==> posts[i] == Post(callbackUrl, payload)
    ensures delays == BackoffDelays(if delivered then FailuresBeforeSuccess(outcomes) else MAX_RETRY_ATTEMPTS - 1)
    ensures delivered ==>
      && store.log == old(store.log) + DeliveryWrites(requestId, outcomes, sentTime)
      && store.table == WithCallback(old(store.table), requestId, FinalUpdate(outcomes, sentTime))
    ensures !delivered ==>
      && errorMsg == AttemptError(outcomes[MAX_RETRY_ATTEMPTS - 1])
      && store.log == old(store.log) + PendingWrites(requestId, outcomes, MAX_RETRY_ATTEMPTS)
      && store.table == TableAfterFailures(old(store.table), requestId, outcomes, MAX_RETRY_ATTEMPTS)
  {
    errorMsg := "";
    posts, delays := [], [];
    var failed := 0;
    while failed < MAX_RETRY_ATTEMPTS
      invariant failed <= MAX_RETRY_ATTEMPTS
      invariant FailuresBeforeSuccess(outcomes) >= failed
      invariant store.Valid()
      invariant store.log == old(store.log) + PendingWrites(requestId, outcomes, failed)
      invariant store.table == TableAfterFailures(old(store.table), requestId, outcomes, failed)
      invariant failed > 0 ==> errorMsg == AttemptError(outcomes[failed - 1])
      invariant posts == Repeat(Post(callbackUrl, payload), failed)
      invariant delays == BackoffDelays(if failed < MAX_RETRY_ATTEMPTS then failed else MAX_RETRY_ATTEMPTS - 1)
    {
      var attempt := failed + 1;
      var outcome := outcomes[failed];
      posts := posts + [Post(callbackUrl, payload)];
      if outcome.HttpResponse? && outcome.statusCode < 400 {
        LaterWriteOverwrites(old(store.table), requestId, outcomes, failed, FinalUpdate(outcomes, sentTime));
        store.UpdateCallbackStatus(requestId, Sent, attempt, None, Some(sentTime));
        return true, errorMsg, posts, delays;
      }
      errorMsg := RecordFailedAttempt(store, requestId, outcomes, failed, old(store.log), old(store.table));
      if attempt < MAX_RETRY_ATTEMPTS {
        var delay: nat := BASE_RETRY_DELAY_SECONDS * Pow2(attempt - 1);
        delays := delays + [delay];
      }
      failed := attempt;
    }
    delivered := false;
  }

  /** n copies of x. */
  function Repeat<T>(x: T, n: nat): (r: seq<T>)
    ensures |r| == n && forall i :: 0 <= i < n ==> r[i] == x
  {
    if n == 0 then [] else Repeat(x, n - 1) + [x]
  }

  /** Records failed attempt number n + 1 as PENDING with its error. */
  method RecordFailedAttempt(store: RequestStore, requestId: string, outcomes: seq<AttemptOutcome>, n: nat,
                             ghost log0: seq<StoreWrite>, ghost table0: map<string, Row>)
    returns (errorMsg: string)
    requires store.Valid() && TableValid(table0) && n < |outcomes|
    requires store.log == log0 + PendingWrites(requestId, outcomes, n)
    requires store.table == TableAfterFailures(table0, requestId, outcomes, n)
    modifies store
    ensures store.Valid()
    ensures errorMsg == AttemptError(outcomes[n])
    ensures store.log == log0 + PendingWrites(requestId, outcomes, n + 1)
    ensures store.table == TableAfterFailures(table0, requestId, outcomes, n + 1)
  {
    errorMsg := AttemptError(outcomes[n]);
    LaterWriteOverwrites(table0, requestId, outcomes, n, PendingUpdate(outcomes, n));
    store.UpdateCallbackStatus(requestId, CallbackStatus.Pending, n + 1, Some(errorMsg));
  }

  /** The table after the first n attempts failed: only the last PENDING
      write is visible. */
  ghost function TableAfterFailures(table: map<string, Row>, requestId: string, outcomes: seq<AttemptOutcome>, n: nat): (t: map<string, Row>)
    requires TableValid(table) && n <= |outcomes|
    ensures TableValid(t)
  {
    if n == 0 then table else WithCallback(table, requestId, PendingUpdate(outcomes, n - 1))
  }

  /** The next callback write hides the PENDING writes before it. */
  lemma LaterWriteOverwrites(table: map<string, Row>, requestId: string, outcomes: seq<AttemptOutcome>, n: nat, u: CallbackUpdate)
    requires TableValid(table) && n <= |outcomes|
    ensures WithCallback(TableAfterFailures(table, requestId, outcomes, n), requestId, u) == WithCallback(table, requestId, u)
  {
    if n > 0 {
      CallbackWriteOverwrites(table, requestId, PendingUpdate(outcomes, n - 1), u);
    }
  }

  // ---------------------------------------------------------------------
  // Properties of a delivery

  /** At most five attempts, numbered 1 to 5 in order: every write but the
      last is PENDING with its attempt number and an error, and no write
      other than SENT carries a sending time. */
  lemma DeliveryWritesShape(requestId: string, outcomes: seq<AttemptOutcome>, sentAt: Timestamp)
    requires |outcomes| == MAX_RETRY_ATTEMPTS
    ensures var ws := DeliveryWrites(requestId, outcomes, sentAt);
      && 1 <= |ws| <= MAX_RETRY_ATTEMPTS + 1
      && |ws| == FailuresBeforeSuccess(outcomes) + 1
      && (forall i :: 0 <= i < |ws| ==> ws[i].CallbackWritten? && ws[i].id == requestId)
      && (forall i :: 0 <= i < |ws| - 1 ==>
            ws[i].callback.status == CallbackStatus.Pending && ws[i].callback.attempts == i + 1
            && ws[i].callback.error.Some? && ws[i].callback.sentAt.None?)
      && 1 <= ws[|ws| - 1].callback.attempts <= MAX_RETRY_ATTEMPTS
      && ws[|ws| - 1].callback.status != CallbackStatus.Pending
  {
  }

  /** The delivery ends SENT exactly when some attempt succeeds, with the
      number of the first successful attempt, no error and the sending
      time; otherwise FAILED after five attempts with the last error. */
  lemma DeliveryFinalWrite(outcomes: seq<AttemptOutcome>, sentAt: Timestamp)
    requires |outcomes| == MAX_RETRY_ATTEMPTS
    ensures FinalUpdate(outcomes, sentAt).status == Sent <==> exists i :: 0 <= i < |outcomes| && Succeeded(outcomes[i])
    ensures forall i :: 0 <= i < |outcomes| && Succeeded(outcomes[i]) && (forall j :: 0 <= j < i ==> !Succeeded(outcomes[j])) ==>
      FinalUpdate(outcomes, sentAt) == CallbackUpdate(Sent, i + 1, None, Some(sentAt))
    ensures (forall i :: 0 <= i < |outcomes| ==> !Succeeded(outcomes[i])) ==>
      FinalUpdate(outcomes, sentAt)
        == CallbackUpdate(CallbackStatus.Failed, 5, Some("Max retries (5) exhausted. Last error: " + AttemptError(outcomes[4])), None)
  {
    forall i | 0 <= i < |outcomes| && Succeeded(outcomes[i]) && (forall j :: 0 <= j < i ==> !Succeeded(outcomes[j]))
      ensures FailuresBeforeSuccess(outcomes) == i
    {
      FirstSuccess(outcomes, i);
    }
  }

  /** The failures before the first success are counted up to that
      success. */
  lemma FirstSuccess(outcomes: seq<AttemptOutcome>, i: nat)
    requires i < |outcomes| && Succeeded(outcomes[i])
    requires forall j :: 0 <= j < i ==> !Succeeded(outcomes[j])
    ensures FailuresBeforeSuccess(outcomes) == i
  {
  }

  /** Only the outcomes up to the first success matter: attempts after it
      are never made. */
  lemma {:induction false} FailuresIgnoreLaterOutcomes(o1: seq<AttemptOutcome>, o2: seq<AttemptOutcome>, k: nat)
    requires k < |o1| && k < |o2| && o1[..k + 1] == o2[..k + 1] && Succeeded(o1[k])
    ensures FailuresBeforeSuccess(o1) == FailuresBeforeSuccess(o2) <= k
  {
    assert o1[0] == o2[0] by { assert o1[0] == o1[..k + 1][0]; }
    if !Succeeded(o1[0]) {
      assert o1[1..][..k] == o1[..k + 1][1..] == o2[..k + 1][1..] == o2[1..][..k];
      FailuresIgnoreLaterOutcomes(o1[1..], o2[1..], k - 1);
    }
  }

  /** Two deliveries whose outcomes agree up to a successful attempt
      perform the same writes. */
  lemma DeliveryIgnoresLaterOutcomes(requestId: string, o1: seq<AttemptOutcome>, o2: seq<AttemptOutcome>, k: nat, sentAt: Timestamp)
    requires |o1| == |o2| == MAX_RETRY_ATTEMPTS
    requires k < MAX_RETRY_ATTEMPTS && o1[..k + 1] == o2[..k + 1] && Succeeded(o1[k])
    ensures DeliveryWrites(requestId, o1, sentAt) == DeliveryWrites(requestId, o2, sentAt)
  {
    FailuresIgnoreLaterOutcomes(o1, o2, k);
    var n := FailuresBeforeSuccess(o1);
    forall i | 0 <= i < n ensures o1[i] == o2[i] {
      assert o1[i] == o1[..k + 1][i];
    }
    assert PendingWrites(requestId, o1, n) == PendingWrites(requestId, o2, n);
  }

  /** The backoff schedule is 1, 2, 4 and 8 seconds, and four sleeps at
      most separate five attempts. */
  lemma BackoffSchedule()
    ensures BackoffDelays(MAX_RETRY_ATTEMPTS - 1) == [1, 2, 4, 8]
  {
    var ds := BackoffDelays(4);
    assert ds[0] == 1 && ds[1] == 2 && ds[2] == 4 && ds[3] == 8;
  }
}
