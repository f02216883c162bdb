# CheckCertsExpire in Dafny

A model of the decision layer of CheckCertsExpire, a one-shot TypeScript script
that connects to an HTTPS host, reads the peer's leaf certificate and reports
how many days remain until it expires and whether the TLS layer trusts it.
The whole program is `main.ts`; the model covers its date arithmetic, the
turning of a peer certificate into a result record, the option defaults and
the `isValid` derivation of `checkCertificateValidity`, and the top-level
decision whether to write `certificateCheck.json`, print the result and warn.

Modules, in dependency order:

- `Wrappers` (`wrappers.dfy`): `Option` for values that may be `undefined`, `Result` for a settled Promise.
- `DateArithmetic` (`date_arithmetic.dfy`): `daysBetween` and `daysRemaining` on integer milliseconds.
- `CertificateFetcher` (`certificate_fetcher.dfy`): `SSLCertificationInfo` and `checkCertificateValidity`.
- `Report` (`report.dfy`): the top-level call on the fixed host and its output decision.

Modelling choices:

- Instants are integer milliseconds. `Math.round(Math.abs(a - b) / 8.64e7)` is
  `(|a - b| + 43200000) / 86400000` with floor division; `DaysBetweenIsRoundedQuotient`
  proves this equal to the source expression over exact reals. That the
  floating-point division is exact at these magnitudes is an assumption.
- The two clock readings of the source are separate parameters
  (`ClockReadings`): `new Date()` at main.ts:42 fixes the distance, and the
  reading at main.ts:12 fixes the sign. Nothing forces them to be equal.
- The network is a parameter `network: RequestOptions -> FetchEvent`: the first
  event the request settles on (a response with the peer certificate and the
  `authorized` flag, a timeout, or a transport error) for the options it is made with.
- `new Date(s)` and `toLocaleString()` are the opaque parameters `instantOf` and `display`.
- `daysRemaining` rounds before it negates, so an expiry less than twelve
  hours in the past gives 0, not a negative count (`RecentExpiryIsZero`,
  `DaysRemainingSign`).
- The parsed command-line values are never used: main.ts:87 always checks
  `www.google.com` with the defaults, and so does `Report.Run`.
- A rejected check is never caught (main.ts:87 has no `.catch`, and the
  `try`/`catch` around the top level is commented out), so it ends the run as
  an unhandled rejection; `Report.Decision` records that error.

## Model

| member | source | states |
|---|---|---|
| `DateArithmetic.DaysBetween` | main.ts:6-7 | the result is the nearest whole day count to the absolute millisecond distance, a tie going up |
| `DateArithmetic.DaysBetweenIsRoundedQuotient` | main.ts:7 | the integer formula equals `Math.round(|a - b| / 8.64e7)` evaluated over exact reals |
| `DateArithmetic.NearestDayCountUnique` | main.ts:7 | a day count is nearest to the distance if and only if it is `daysBetween`'s result |
| `DateArithmetic.DaysBetweenSymmetric` | main.ts:7 | swapping the two instants does not change the day count |
| `DateArithmetic.DaysBetweenSelf` | main.ts:7 | an instant is zero days from itself |
| `DateArithmetic.DaysBetweenMonotone` | main.ts:7 | a longer distance never gives fewer days |
| `DateArithmetic.DaysRemaining` | main.ts:9-16 | the magnitude is `daysBetween(from, to)`; the result is never positive when `to` is before the clock reading and never negative otherwise |
| `DateArithmetic.DaysRemainingSign` | main.ts:9-16 | with one clock reading: negative iff the expiry is at least half a day past, positive iff at least half a day ahead, zero iff within half a day |
| `DateArithmetic.RecentExpiryIsZero` | main.ts:9-16 | an expiry less than twelve hours in the past gives 0, not a negative count |
| `DateArithmetic.DaysRemainingMonotone` | main.ts:9-16 | a later expiry never gives fewer remaining days |
| `DateArithmetic.WholeDaysRemaining` | main.ts:9-16 | an expiry exactly `k` days away gives `k`, for past and future `k` |
| `DateArithmetic.EveryDayCountOccurs` | main.ts:9-16 | a note on the range of `daysRemaining`, not a promise of the program: every signed integer is the remaining-days value of some expiry |
| `CertificateFetcher.ErrorMessage` | main.ts:35-52 | a missing window rejects with "No certificate!", a timeout with "Timeout!", and a transport error carries its own message |
| `CertificateFetcher.CertificateInfoOf` | main.ts:32-46 | rejects with NoCertificate iff a validity timestamp is missing or empty; otherwise `valid` iff `authorized` is true, the CN passes through, the day count has the magnitude and sign of `daysRemaining` on the parsed expiry, and both timestamps are the display form of their parsed instants |
| `CertificateFetcher.SslCertificationInfo` | main.ts:18-55 | a timeout rejects with Timeout, a transport error passes through, NoCertificate arises exactly from a response without a usable validity window, the result succeeds exactly for a response with both timestamps truthy, and a response resolves to the record the response handler builds from it |
| `CertificateFetcher.WithDefaults` | main.ts:63-68 | each option the caller gives wins, each absent one becomes `false`, `'get'` or `443`, the host passes through |
| `CertificateFetcher.GivenOptionsOverrideDefaults` | main.ts:63-68 | a caller giving every option gets exactly those options |
| `CertificateFetcher.HostOnlyGetsDefaults` | main.ts:63-68 | a caller giving only the host gets `agent = false`, `method = 'get'`, `port = 443` |
| `CertificateFetcher.WithValidity` | main.ts:69-71 | `isValid` iff `dayRemaining > 0` or `valid`; every other field is copied |
| `CertificateFetcher.WithValidityKeepsInfo` | main.ts:70 | dropping `isValid` again gives back the certificate info unchanged |
| `CertificateFetcher.CheckCertificateValidity` | main.ts:57-71 | the request is made with the caller's options over the defaults; a rejection passes through unchanged; a success is the fetched info plus an `isValid` that is exactly `dayRemaining > 0 || valid` |
| `CertificateFetcher.TrustedIsValidEvenIfExpired` | main.ts:70 | an expired certificate on an authorized chain is still `isValid` |
| `CertificateFetcher.UnexpiredIsValidEvenIfUntrusted` | main.ts:70 | an unauthorized certificate whose rounded day count `dayRemaining` is positive (with one clock reading: the expiry is at least half a day ahead) is still `isValid` |
| `CertificateFetcher.InvalidIffUntrustedAndNoDayLeft` | main.ts:70 | `isValid` is false iff the chain is not authorized and `dayRemaining <= 0` |
| `Report.Decide` | main.ts:87-95 | the file is written and the result printed iff the check succeeded with `isValid`; the warning fires iff also `dayRemaining < 30`, shows that day count, and never without the file being written; the run ends with an unhandled rejection iff the check rejected, carrying its error |
| `Report.Run` | main.ts:87-95 | for the fixed request: a timeout or transport error is an unhandled rejection with no output; a response lacking a timestamp rejects with NoCertificate; a response with both timestamps present ends the run without a rejection; the file is written and printed iff both timestamps are present and the chain is authorized or the rounded day count `daysRemaining` is positive (with one clock reading: the expiry is at least half a day ahead); the warning fires iff also that count is below 30, and shows it |
| `Report.RunAsksOnlyCheckedRequest` | main.ts:87 | a run depends on the network only through the request for `www.google.com`, port 443, method get, no agent |
| `Report.ScenarioTrustedTenDaysLeft` | main.ts:87-95 | an authorized certificate expiring in ten days is written, printed and warned about with 10 |
| `Report.ScenarioTrustedExpired` | main.ts:87-95 | an authorized certificate that expired five days ago is still written, printed and warned about with -5 |
| `Report.ScenarioUntrustedExpired` | main.ts:87-95 | an unauthorized certificate that expired five days ago writes nothing, prints nothing and does not reject |
| `Report.ScenarioNoCertificate` | main.ts:34-37 | a response without a usable validity window rejects with NoCertificate, writes and prints nothing, and ends the run as an unhandled rejection |

## Left out

- The HTTPS request, the TLS socket, `getPeerCertificate` and the Promise plumbing: network I/O, represented by the `network` parameter.
- The timeout duration: the source registers a timeout handler but never sets a duration; the model only says what a timeout event leads to.
- `new Date(s)` parsing and `toLocaleString()` formatting: library and locale behaviour, passed in as opaque functions. An unparseable timestamp (`NaN` in JavaScript) is not modelled.
- Reading the clock: the two readings are parameters.
- `parseArgs` on the command line: its result is never used by the source.
- What Node does with an unhandled rejection (its message on standard error and the process exit status): runtime behaviour; the model records only which error the run ends with.
- `writeFileSync`, `JSON.stringify` and `console.log`: only whether they happen, and the day count the warning shows, are modelled; the warning's text is not.
- Floating-point semantics of `/ 8.64e7` and `Math.round`: replaced by exact integer arithmetic, which agrees with exact real arithmetic.
- JavaScript's `-0`: negating a zero day count gives `-0` in the source; every comparison the source makes treats it as 0, as the model does.
- `CertificateFetcher.WithDefaults`: an option the caller passes explicitly as `undefined` overrides its default under the object spread; the model treats such an option as absent.
