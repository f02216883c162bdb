/**
  The certificate fetcher (main.ts:18-71): turning the peer certificate of one
  HTTPS response into a result record, and the `checkCertificateValidity`
  overlay that fills in request defaults and derives `isValid`.

  The request itself is not modelled: `network` stands for whatever event the
  transport delivers for a given set of request options, the clock readings
  are parameters, and the `Date` parsing and display formatting of the
  certificate timestamps are opaque functions handed in by the caller.
*/
module CertificateFetcher {
  import opened Wrappers
  import opened DateArithmetic

  /** The HTTP method that frames the request (`'get' | 'post' | 'head'`). */
  datatype Method = Get | Post | Head

  /** Options as a caller of `checkCertificateValidity` gives them: all but the host optional. */
  datatype CallerOptions = CallerOptions(
    agent: Option<bool>,
    httpMethod: Option<Method>,
    port: Option<int>,
    hostname: string)

  /** Options as `SSLCertificationInfo` receives them, every field filled in. */
  datatype RequestOptions = RequestOptions(
    agent: bool,
    httpMethod: Method,
    port: int,
    hostname: string)

  /** The fields of `getPeerCertificate()` the checker reads; `subjectCN` is `subject.CN`. */
  datatype PeerCertificate = PeerCertificate(
    validFrom: Option<string>,
    validTo: Option<string>,
    subjectCN: Option<string>)

  /** The first event the request settles on. */
  datatype FetchEvent =
    | Responded(certificate: PeerCertificate, authorized: Option<bool>)
    | TimedOut
    | Failed(cause: string)

  /** Why the fetch rejected. */
  datatype FetchError = NoCertificate | Timeout | Transport(cause: string)

  /** The two readings of the wall clock: main.ts:42 measures the distance, main.ts:12 judges the sign. */
  datatype ClockReadings = ClockReadings(forDistance: int, forSign: int)

  /** What `SSLCertificationInfo` resolves with. */
  datatype CertificateInfo = CertificateInfo(
    subject: Option<string>,
    dayRemaining: int,
    valid: bool,
    validFrom: string,
    validTo: string)

  /** What `checkCertificateValidity` resolves with: the certificate info plus `isValid`. */
  datatype CheckResult = CheckResult(
    subject: Option<string>,
    dayRemaining: int,
    valid: bool,
    validFrom: string,
    validTo: string,
    isValid: bool)

  const DefaultAgent: bool := false
  const DefaultMethod: Method := Get
  const DefaultPort: int := 443

  /** The text of the error each rejection carries. */
  function ErrorMessage(e: FetchError): (m: string)
    ensures e == NoCertificate ==> m == "No certificate!"
    ensures e == Timeout ==> m == "Timeout!"
    ensures e.Transport? ==> m == e.cause
  {
    match e
    case NoCertificate => "No certificate!"
    case Timeout => "Timeout!"
    case Transport(cause) => cause
  }

  /** A certificate timestamp field is truthy: present and not the empty string. */
  predicate Truthy(field: Option<string>)
  {
    field.Some? && field.value != ""
  }

  /**
    The response handler of `SSLCertificationInfo` (main.ts:32-46): rejects
    unless both validity timestamps are truthy; otherwise reports the
    certificate's CN, the signed days to its expiry, whether the TLS layer
    authorized the peer, and both timestamps formatted for display.
  */
  function CertificateInfoOf(
    certificate: PeerCertificate,
    authorized: Option<bool>,
    clocks: ClockReadings,
    instantOf: string -> int,
    display: int -> string): (r: Result<CertificateInfo, FetchError>)
    ensures r.Err? <==> !Truthy(certificate.validFrom) || !Truthy(certificate.validTo)
    ensures r.Err? ==> r.error == NoCertificate
    ensures r.Ok? ==> (r.value.valid <==> authorized == Some(true))
    ensures r.Ok? ==> r.value.subject == certificate.subjectCN
    ensures r.Ok? ==>
      var expiry := instantOf(certificate.validTo.value);
      && Abs(r.value.dayRemaining) == DaysBetween(clocks.forDistance, expiry)
      && (r.value.dayRemaining < 0 ==> expiry < clocks.forSign)
      && (r.value.dayRemaining > 0 ==> expiry >= clocks.forSign)
      && r.value.validFrom == display(instantOf(certificate.validFrom.value))
      && r.value.validTo == display(expiry)
  {
    if !Truthy(certificate.validFrom) || !Truthy(certificate.validTo) then
      Err(NoCertificate)
    else
      var validTo := instantOf(certificate.validTo.value);
      Ok(CertificateInfo(
        certificate.subjectCN,
        DaysRemaining(clocks.forDistance, validTo, clocks.forSign),
        authorized.Some? && authorized.value,
        display(instantOf(certificate.validFrom.value)),
        display(validTo)))
  }

  /**
    `SSLCertificationInfo(options)` (main.ts:18-55): the Promise settles on the
    first event of the request made with `options`: a response goes through
    `CertificateInfoOf`, a timeout rejects with "Timeout!", a transport error
    is passed through as it is.
  */
  function SslCertificationInfo(
    options: RequestOptions,
    network: RequestOptions -> FetchEvent,
    clocks: ClockReadings,
    instantOf: string -> int,
    display: int -> string): (r: Result<CertificateInfo, FetchError>)
    ensures network(options).TimedOut? ==> r == Err(Timeout)
    ensures network(options).Failed? ==> r == Err(Transport(network(options).cause))
    ensures r == Err(NoCertificate) <==>
      network(options).Responded? &&
      (!Truthy(network(options).certificate.validFrom) || !Truthy(network(options).certificate.validTo))
    ensures r.Ok? <==>
      network(options).Responded? &&
      Truthy(network(options).certificate.validFrom) && Truthy(network(options).certificate.validTo)
    ensures network(options).Responded? ==>
      r == CertificateInfoOf(network(options).certificate, network(options).authorized, clocks, instantOf, display)
  {
    match network(options)
    case Responded(certificate, authorized) =>
      CertificateInfoOf(certificate, authorized, clocks, instantOf, display)
    case TimedOut => Err(Timeout)
    case Failed(cause) => Err(Transport(cause))
  }

  /**
    The object spread of main.ts:63-68: each option the caller gives wins,
    each it leaves out takes its default; the host passes through.
  */
  function WithDefaults(o: CallerOptions): (r: RequestOptions)
    ensures r.hostname == o.hostname
    ensures r.agent == if o.agent.Some? then o.agent.value else DefaultAgent
    ensures r.httpMethod == if o.httpMethod.Some? then o.httpMethod.value else DefaultMethod
    ensures r.port == if o.port.Some? then o.port.value else DefaultPort
  {
    RequestOptions(
      match o.agent case Some(a) => a case None => DefaultAgent,
      match o.httpMethod case Some(m) => m case None => DefaultMethod,
      match o.port case Some(p) => p case None => DefaultPort,
      o.hostname)
  }

  /** Options with every field given, as a caller would pass them. */
  function Given(r: RequestOptions): CallerOptions
  {
    CallerOptions(Some(r.agent), Some(r.httpMethod), Some(r.port), r.hostname)
  }

  /** A caller that gives every option gets exactly those options: no default leaks through. */
  lemma GivenOptionsOverrideDefaults(r: RequestOptions)
    ensures WithDefaults(Given(r)) == r
  {
  }

  /** A caller that gives only the host gets `agent = false`, `method = 'get'`, `port = 443`. */
  lemma HostOnlyGetsDefaults(hostname: string)
    ensures WithDefaults(CallerOptions(None, None, None, hostname))
         == RequestOptions(false, Get, 443, hostname)
  {
  }

  /** The `.then` of main.ts:69-71: every field copied, `isValid` added. */
  function WithValidity(info: CertificateInfo): (r: CheckResult)
    ensures r.isValid <==> info.dayRemaining > 0 || info.valid
    ensures r.subject == info.subject && r.dayRemaining == info.dayRemaining && r.valid == info.valid
    ensures r.validFrom == info.validFrom && r.validTo == info.validTo
  {
    CheckResult(info.subject, info.dayRemaining, info.valid, info.validFrom, info.validTo,
      info.dayRemaining > 0 || info.valid)
  }

  /** The record without its derived field. */
  function WithoutValidity(r: CheckResult): CertificateInfo
  {
    CertificateInfo(r.subject, r.dayRemaining, r.valid, r.validFrom, r.validTo)
  }

  /** Deriving `isValid` adds one field and changes nothing else. */
  lemma WithValidityKeepsInfo(info: CertificateInfo)
    ensures WithoutValidity(WithValidity(info)) == info
  {
  }

  /** `isValid` is the exact OR of the day count and the trust flag, on every result there can be. */
  predicate ConsistentValidity(r: CheckResult)
  {
    r.isValid == (r.dayRemaining > 0 || r.valid)
  }

  /**
    `checkCertificateValidity(options)` (main.ts:57-71): requests with the
    caller's options over the defaults and derives `isValid` on success;
    a rejection passes through unchanged.
  */
  function CheckCertificateValidity(
    caller: CallerOptions,
    network: RequestOptions -> FetchEvent,
    clocks: ClockReadings,
    instantOf: string -> int,
    display: int -> string): (r: Result<CheckResult, FetchError>)
    ensures r.Ok? ==> ConsistentValidity(r.value)
    ensures r.Err? <==> SslCertificationInfo(WithDefaults(caller), network, clocks, instantOf, display).Err?
    ensures r.Err? ==> r.error == SslCertificationInfo(WithDefaults(caller), network, clocks, instantOf, display).error
    ensures r.Ok? ==> WithoutValidity(r.value) == SslCertificationInfo(WithDefaults(caller), network, clocks, instantOf, display).value
  {
    match SslCertificationInfo(WithDefaults(caller), network, clocks, instantOf, display)
    case Ok(info) => Ok(WithValidity(info))
    case Err(e) => Err(e)
  }

  /** A trusted certificate is reported valid however long ago it expired. */
  lemma TrustedIsValidEvenIfExpired(info: CertificateInfo)
    requires info.valid && info.dayRemaining < 0
    ensures WithValidity(info).isValid
  {
  }

  /** An untrusted certificate is reported valid whenever the rounded day count is positive. */
  lemma UnexpiredIsValidEvenIfUntrusted(info: CertificateInfo)
    requires !info.valid && info.dayRemaining > 0
    ensures WithValidity(info).isValid
  {
  }

  /** `isValid` is false exactly when the peer is untrusted and the rounded day count is at most zero. */
  lemma InvalidIffUntrustedAndNoDayLeft(info: CertificateInfo)
    ensures !WithValidity(info).isValid <==> !info.valid && info.dayRemaining <= 0
  {
  }
}
