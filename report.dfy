/**
  The top level of the checker (main.ts:73-95): one check of a fixed host and
  the decision what to do with its result. Writing `certificateCheck.json` and
  printing to the console are reduced to whether they happen, and with which
  day count the low-time warning is printed.
*/
module Report {
  import opened Wrappers
  import opened DateArithmetic
  import opened CertificateFetcher

  /** The host the top level checks; the parsed command-line values are never used. */
  const CheckedHostname: string := "www.google.com"

  /** Fewer days remaining than this draws the low-time warning. */
  const WarningThresholdDays: int := 30

  /**
    The visible effects of one run: whether `certificateCheck.json` is written,
    whether the result is printed, the day count the low-time warning shows,
    and the error the process ends with when the check rejects. Nothing
    catches that rejection, so it surfaces as an unhandled Promise rejection.
  */
  datatype Decision = Decision(
    writeFile: bool,
    printResult: bool,
    warning: Option<int>,
    unhandledRejection: Option<FetchError>)

  /** Nothing written, nothing printed, no rejection. */
  const Silent: Decision := Decision(false, false, None, None)

  /**
    The `.then` callback of main.ts:87-95. A rejected check never reaches it
    and no `.catch` follows it, so a rejection writes no file, prints no
    result and ends the run as an unhandled rejection carrying that error.
  */
  function Decide(outcome: Result<CheckResult, FetchError>): (d: Decision)
    ensures d.writeFile <==> outcome.Ok? && outcome.value.isValid
    ensures d.printResult == d.writeFile
    ensures d.warning.Some? <==>
      outcome.Ok? && outcome.value.isValid && outcome.value.dayRemaining < WarningThresholdDays
    ensures d.warning.Some? ==> d.writeFile && d.warning.value == outcome.value.dayRemaining
    ensures d.unhandledRejection.Some? <==> outcome.Err?
    ensures outcome.Err? ==> d.unhandledRejection.value == outcome.error
  {
    match outcome
    case Err(e) => Decision(false, false, None, Some(e))
    case Ok(res) =>
      if res.isValid then
        Decision(true, true, if res.dayRemaining < WarningThresholdDays then Some(res.dayRemaining) else None, None)
      else
        Silent
  }

  /** The request the top level makes: the fixed host with every default. */
  const CheckedRequest: RequestOptions := RequestOptions(false, Get, 443, CheckedHostname)

  /**
    One run of the program: check the fixed host, then decide on the outputs.
    A response carrying both validity timestamps ends the run without a
    rejection; the file is then written exactly when its chain was authorized
    or the rounded day count `daysRemaining` is positive (with one clock
    reading: the expiry is at least half a day ahead); the warning comes on
    top of that when that count is below 30. Any other event ends the run
    with the corresponding rejection.
  */
  function Run(
    network: RequestOptions -> FetchEvent,
    clocks: ClockReadings,
    instantOf: string -> int,
    display: int -> string): (d: Decision)
    ensures network(CheckedRequest).TimedOut? ==> d == Decision(false, false, None, Some(Timeout))
    ensures network(CheckedRequest).Failed? ==>
      d == Decision(false, false, None, Some(Transport(network(CheckedRequest).cause)))
    ensures
      var ev := network(CheckedRequest);
      d.unhandledRejection == Some(NoCertificate) <==>
        ev.Responded? && (!Truthy(ev.certificate.validFrom) || !Truthy(ev.certificate.validTo))
    ensures
      var ev := network(CheckedRequest);
      d.unhandledRejection == None <==>
        ev.Responded? && Truthy(ev.certificate.validFrom) && Truthy(ev.certificate.validTo)
    ensures
      var ev := network(CheckedRequest);
      d.writeFile <==>
        && ev.Responded?
        && Truthy(ev.certificate.validFrom) && Truthy(ev.certificate.validTo)
        && (ev.authorized == Some(true)
            || DaysRemaining(clocks.forDistance, instantOf(ev.certificate.validTo.value), clocks.forSign) > 0)
    ensures
      var ev := network(CheckedRequest);
      d.warning.Some? <==>
        && d.writeFile
        && DaysRemaining(clocks.forDistance, instantOf(ev.certificate.validTo.value), clocks.forSign)
           < WarningThresholdDays
    ensures d.warning.Some? ==>
      d.warning.value
      == DaysRemaining(clocks.forDistance, instantOf(network(CheckedRequest).certificate.validTo.value), clocks.forSign)
    ensures d.printResult == d.writeFile
  {
    Decide(CheckCertificateValidity(CallerOptions(None, None, None, CheckedHostname), network, clocks, instantOf, display))
  }

  /** A run depends on the network only through the one request it makes. */
  lemma RunAsksOnlyCheckedRequest(
    network1: RequestOptions -> FetchEvent,
    network2: RequestOptions -> FetchEvent,
    clocks: ClockReadings,
    instantOf: string -> int,
    display: int -> string)
    requires network1(CheckedRequest) == network2(CheckedRequest)
    ensures Run(network1, clocks, instantOf, display) == Run(network2, clocks, instantOf, display)
  {
  }

  /**
    A certificate that expires ten days from now on a trusted chain: ten days
    remain, the result is written and printed, and the warning shows ten days.
  */
  lemma ScenarioTrustedTenDaysLeft(
    now: int, validFrom: string, validTo: string, cn: Option<string>,
    network: RequestOptions -> FetchEvent, instantOf: string -> int, display: int -> string)
    requires validFrom != "" && validTo != ""
    requires network(CheckedRequest) == Responded(PeerCertificate(Some(validFrom), Some(validTo), cn), Some(true))
    requires instantOf(validTo) == now + 10 * MillisPerDay
    ensures Run(network, ClockReadings(now, now), instantOf, display) == Decision(true, true, Some(10), None)
  {
  }

  /**
    A certificate that expired five days ago on a chain the TLS layer still
    authorizes: minus five days, yet `isValid`, so it is written, printed and
    warned about.
  */
  lemma ScenarioTrustedExpired(
    now: int, validFrom: string, validTo: string, cn: Option<string>,
    network: RequestOptions -> FetchEvent, instantOf: string -> int, display: int -> string)
    requires validFrom != "" && validTo != ""
    requires network(CheckedRequest) == Responded(PeerCertificate(Some(validFrom), Some(validTo), cn), Some(true))
    requires instantOf(validTo) == now - 5 * MillisPerDay
    ensures Run(network, ClockReadings(now, now), instantOf, display) == Decision(true, true, Some(-5), None)
  {
  }

  /** The same expired certificate on an unauthorized chain is not valid: no file, no printout, no rejection. */
  lemma ScenarioUntrustedExpired(
    now: int, validFrom: string, validTo: string, cn: Option<string>, authorized: Option<bool>,
    network: RequestOptions -> FetchEvent, instantOf: string -> int, display: int -> string)
    requires validFrom != "" && validTo != "" && authorized != Some(true)
    requires network(CheckedRequest) == Responded(PeerCertificate(Some(validFrom), Some(validTo), cn), authorized)
    requires instantOf(validTo) == now - 5 * MillisPerDay
    ensures Run(network, ClockReadings(now, now), instantOf, display) == Silent
  {
  }

  /** A response without a usable validity window rejects with "No certificate!": no file, no printout, an unhandled rejection. */
  lemma ScenarioNoCertificate(
    certificate: PeerCertificate, authorized: Option<bool>, clocks: ClockReadings,
    network: RequestOptions -> FetchEvent, instantOf: string -> int, display: int -> string)
    requires !Truthy(certificate.validFrom) || !Truthy(certificate.validTo)
    requires network(CheckedRequest) == Responded(certificate, authorized)
    ensures CheckCertificateValidity(CallerOptions(None, None, None, CheckedHostname), network, clocks, instantOf, display)
         == Err(NoCertificate)
    ensures Run(network, clocks, instantOf, display) == Decision(false, false, None, Some(NoCertificate))
  {
  }
}
