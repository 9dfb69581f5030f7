# DNS-validated ACM certificate client — Dafny model

This project models the pure core of `DNSValidatedACMCertClient`, a client that
requests a TLS certificate from AWS Certificate Manager (ACM) with DNS validation,
writes the validation records ACM asks for into the matching Route 53 hosted
zones, and waits until the certificate leaves `PENDING_VALIDATION`.

The model is functional. Immutable datatypes stand for validation records,
Route 53 changes, hosted zones and certificate descriptions. Pure functions over
`seq` stand for the client's operations. The cloud calls are function parameters:
ACM's RequestCertificate and Route 53's ChangeResourceRecordSets take a request
and return a response of an abstract type `R`. The success check on a response is
a parameter `succeeded: R -> bool`. The public-suffix extractor is a parameter
`extract: string -> DomainParts`. The status queries are a stream
`observe: nat -> Status`, where `observe(n)` is what the n-th query returns.

Modules, one per concern of `create_and_validate_acm_cert/ACM.py`:

- `Wrappers`: `Option`.
- `Distinct`: order-preserving de-duplication (`remove_duplicate_upsert_records`).
- `Records`: validation records and the UPSERT change built from each one
  (`get_resource_record_data`, `create_dns_record_set`).
- `Zones`: Python's `str.split`, zone-id extraction, zone-name matching and
  hosted-zone resolution (`get_hosted_zone_id` and its nested helpers).
- `Polling`: the validation wait loop (`wait_for_certificate_validation`), with
  the sleep replaced by the elapsed-time counter.
- `Acm`: the certificate request (`request_certificate`), reading the validation
  options (`get_domain_validation_records`), and the submission of change batches
  (`create_domain_validation_records`).

Error paths are modelled as values. An option without a `ResourceRecord` makes
`create_dns_record_set` fail while `create_domain_validation_records` builds the
change list, before anything is submitted; this is the `MissingResourceRecord`
outcome. A record name that no hosted zone matches makes `get_hosted_zone_id` fail
on the empty filter result.
Earlier submissions stay in place and later ones are never sent; this is the
`ZoneNotFound` outcome. A timeout in the wait loop is the `TimedOut` result.

Behaviour worth noting:

- With the status always `PENDING_VALIDATION`, a 5 s interval and a 10 s
  timeout, the loop fails only once the counter is strictly greater than the
  timeout (ACM.py:50). So it sleeps three times, reaches 15 s, and fails on the
  fourth status query (`Polling.PendingTimesOutAfterThreeSleeps`).
- When several hosted zones match a record's domain, the first in listing order
  is used and the rest are ignored (ACM.py:92, `Zones.HostedZoneIdIsFirstMatch`).

## Model

| member | source | states |
|---|---|---|
| `Distinct.RemoveDuplicates` | create_and_validate_acm_cert/ACM.py:120-123 | the result has no two equal elements, every input element is in it, and every element of it came from the input |
| `Distinct.RemoveDuplicatesKeepsFirstOccurrences` | create_and_validate_acm_cert/ACM.py:120-123 | the result is exactly the input's elements at the positions where they occur for the first time |
| `Distinct.RemoveDuplicatesKeepsFirstSeenOrder` | create_and_validate_acm_cert/ACM.py:120-123 | elements of the result appear in the order of their first occurrence in the input |
| `Distinct.RemoveDuplicatesFixesDistinct` | create_and_validate_acm_cert/ACM.py:120-123 | a list is left unchanged if and only if it has no duplicates |
| `Distinct.RemoveDuplicatesIdempotent` | create_and_validate_acm_cert/ACM.py:120-123 | de-duplicating twice gives the same as de-duplicating once |
| `Distinct.RemoveDuplicatesCommutesWithInjective` | create_and_validate_acm_cert/ACM.py:131-135 | for an injective map, de-duplicating the images equals mapping the de-duplicated inputs |
| `Records.GetResourceRecordData` | create_and_validate_acm_cert/ACM.py:94-98 | the (type, name, value) triple carries the whole record: reassembling it gives the record back |
| `Records.UpsertChange` | create_and_validate_acm_cert/ACM.py:104-118 | the change has action UPSERT, TTL 300 and exactly one resource record, and reading its record back gives the input's type, name and value |
| `Records.UpsertChangeOfRecord` | create_and_validate_acm_cert/ACM.py:104-118 | every change of that fixed shape is the upsert of the record it writes, so building and reading back are inverse |
| `Records.UpsertChangeInjective` | create_and_validate_acm_cert/ACM.py:104-118 | two records give equal changes if and only if they are equal |
| `Records.CreateDnsRecordSet` | create_and_validate_acm_cert/ACM.py:100-118 | there is no change exactly when the option has no `ResourceRecord`; otherwise the change has the fixed UPSERT shape and writes the option's record |
| `Zones.Split` | create_and_validate_acm_cert/ACM.py:83 | `str.split` yields at least one piece and no piece contains the separator |
| `Zones.JoinSplit` | create_and_validate_acm_cert/ACM.py:83 | joining the pieces with the separator gives the original string |
| `Zones.SplitLastPiece` | create_and_validate_acm_cert/ACM.py:83 | the last piece is a suffix of the string, and it is either the whole string or preceded by the separator |
| `Zones.ZoneIdFromIdString` | create_and_validate_acm_cert/ACM.py:82-83 | the zone id contains no `/`, is the text after the last `/` of the `Id`, and is the whole `Id` when that has no `/` |
| `Zones.ZoneIdExample` | create_and_validate_acm_cert/ACM.py:82-83 | `/hostedzone/Z1` gives `Z1` |
| `Zones.DomainMatchesHostedZone` | create_and_validate_acm_cert/ACM.py:79-80 | the zone-name comparison itself; its contract is carried by `Zones.DomainMatchIffTrailingDot` |
| `Zones.DomainMatchIffTrailingDot` | create_and_validate_acm_cert/ACM.py:79-80 | a zone matches if and only if its name is the domain followed by exactly one `.` |
| `Zones.MatchingZones` | create_and_validate_acm_cert/ACM.py:87-90 | the filter keeps exactly the matching zones of the listing and nothing else (membership; order and repeats are stated by `Zones.MatchingZonesAppend` and `Zones.MatchingZonesOfOne`) |
| `Zones.MatchingZonesOfOne` | create_and_validate_acm_cert/ACM.py:87-90 | a one-zone listing filters to that zone if it matches and to nothing otherwise |
| `Zones.MatchingZonesAppend` | create_and_validate_acm_cert/ACM.py:87-90 | filtering a concatenated listing is the concatenation of the filtered parts, so the result keeps listing order and repeated zones |
| `Zones.MatchingZonesHead` | create_and_validate_acm_cert/ACM.py:87-92 | the head of the filtered list is the first matching zone in listing order |
| `Zones.GetDomainFromHost` | create_and_validate_acm_cert/ACM.py:72-77 | the registrable domain as `domain.suffix` from the extractor's result; no contract beyond that joining |
| `Zones.GetHostedZoneId` | create_and_validate_acm_cert/ACM.py:66-92 | zone resolution itself; its contract is carried by `Zones.HostedZoneIdIsFirstMatch` |
| `Zones.HostedZoneIdIsFirstMatch` | create_and_validate_acm_cert/ACM.py:66-92 | resolution gives nothing if and only if no zone matches the registrable domain; otherwise it gives the id of the first matching zone in listing order |
| `Zones.ZoneResolutionExample` | create_and_validate_acm_cert/ACM.py:72-92 | with zones `example.com.` (id `/hostedzone/Z1`) and `other.com.`, `www.example.com` resolves to `Z1`, the first zone's id with its path stripped, and an unknown domain to nothing |
| `Polling.WaitFrom` | create_and_validate_acm_cert/ACM.py:49-55 | from any reachable loop state the counter equals sleeps times the interval, all skipped statuses were pending, and the loop ends on the first non-pending status or on pending with the counter past the timeout |
| `Polling.Wait` | create_and_validate_acm_cert/ACM.py:45-55 | the wait returns only on a non-pending status after only pending ones, fails only while still pending with the counter past the timeout, and every sleep is taken while the counter has not passed the timeout |
| `Polling.SleepBound` | create_and_validate_acm_cert/ACM.py:49-55 | with a non-negative timeout there are at most `timeout / sleep_time + 1` sleeps, and a timeout failure comes after at least one sleep |
| `Polling.AlwaysPendingTimesOut` | create_and_validate_acm_cert/ACM.py:49-55 | with a non-negative timeout, a status that never leaves `PENDING_VALIDATION` ends in the timeout failure after exactly `timeout / sleep_time + 1` sleeps |
| `Polling.WaitForCertificateValidation` | create_and_validate_acm_cert/ACM.py:45-55 | `wait_for_certificate_validation`'s while loop, with the counter in place of the sleep, ends exactly as the functional wait does |
| `Polling.IssuedAfterTwoSleeps` | create_and_validate_acm_cert/ACM.py:45-55 | statuses pending, pending, issued with a 5 s interval and a 600 s timeout succeed after two sleeps at 10 s |
| `Polling.PendingTimesOutAfterThreeSleeps` | create_and_validate_acm_cert/ACM.py:45-55 | always pending with a 5 s interval and a 10 s timeout fails after three sleeps at 15 s |
| `Acm.CertificateRequestFor` | create_and_validate_acm_cert/ACM.py:30-37 | the request names the domain, asks for DNS validation, and carries `SubjectAlternativeNames` if and only if the list is non-empty, and then exactly that list |
| `Acm.RequestShapeExamples` | create_and_validate_acm_cert/ACM.py:30-37 | `www.example.com` without names gives no `SubjectAlternativeNames`; with `api.example.com` the field is present |
| `Acm.RequestCertificate` | create_and_validate_acm_cert/ACM.py:26-40 | an ARN comes back only from a successful response and is that response's `CertificateArn`; an unsuccessful response gives nothing |
| `Acm.GetDomainValidationRecords` | create_and_validate_acm_cert/ACM.py:57-64 | the options of the description, and the empty list when `Certificate` or `DomainValidationOptions` is missing |
| `Acm.BuildChanges` | create_and_validate_acm_cert/ACM.py:129-134 | no change list exactly when some option has no record; otherwise one change per option, in order, each the upsert of that option's record |
| `Acm.ZoneResolver` | create_and_validate_acm_cert/ACM.py:138 | `get_hosted_zone_id` over the fixed zone listing, as the map from record names to zone ids that the submission loop uses |
| `Acm.SubmitEach` | create_and_validate_acm_cert/ACM.py:136-148 | the submission loop itself; its contract is carried by `Acm.SubmitEachSpec` |
| `Acm.SubmitEachSpec` | create_and_validate_acm_cert/ACM.py:136-148 | the i-th batch goes to the resolved zone of the i-th change and holds only that change; the loop completes exactly when every change was sent, and otherwise stops at a change whose name no zone matches |
| `Acm.CreateDomainValidationRecords` | create_and_validate_acm_cert/ACM.py:125-148 | the run ends with `MissingResourceRecord`, and then with no submission, exactly when some option has no record; every submitted batch holds one change of the fixed UPSERT shape |
| `Acm.RunFollowsUniqueChanges` | create_and_validate_acm_cert/ACM.py:131-143 | the batches send the de-duplicated changes in de-duplicated order, one per batch, each to the zone its record name resolves to; the run completes exactly when all were sent and otherwise stops at the first change with no matching zone |
| `Acm.NoChangeSubmittedTwice` | create_and_validate_acm_cert/ACM.py:131-143 | no two batches of a run carry the same change |
| `Acm.SubmittedChangesComeFromOptions` | create_and_validate_acm_cert/ACM.py:129-143 | every submitted change is the upsert of some option's record |
| `Acm.CompletedRunCoversEveryOption` | create_and_validate_acm_cert/ACM.py:129-143 | a completed run has submitted the upsert of every option's record |
| `Acm.UniqueChanges` | create_and_validate_acm_cert/ACM.py:129-135 | the de-duplicated change list; its contract is carried by `Acm.OneChangePerDistinctRecord` |
| `Acm.OneChangePerDistinctRecord` | create_and_validate_acm_cert/ACM.py:129-135 | the submitted change list is one upsert per distinct (type, name, value) record, in first-seen order |
| `Acm.SubmitEachIgnoresResponses` | create_and_validate_acm_cert/ACM.py:136-148 | the batches sent and the way the loop ends do not depend on how responses are judged |
| `Acm.ResponsesDoNotStopSubmissions` | create_and_validate_acm_cert/ACM.py:136-148 | a response judged unsuccessful does not stop later submissions: the batches and the outcome of a run are the same whatever the responses are judged to be |

## Left out

- Session, client and paginator construction, the Route 53 retry configuration and the zone listing call (`__init__`, ACM.py:10-18): I/O plumbing; the drained `HostedZones` listing is the input `zones`.
- The public-suffix extraction of `tldextract`: a foreign library with an external suffix list; it is the parameter `extract`, and only the `domain.suffix` joining is modelled.
- `aws_helpers.response_succeeded`: `aws_helpers` is not part of this model; the success check is the parameter `succeeded`.
- `get_certificate_arn`: a plain `.get('CertificateArn')` of the response (ACM.py:24); it is the parameter `certificateArn`.
- `get_certificate_status`: it calls DescribeCertificate (ACM.py:43) and reads `['Certificate']['Status']`; the statuses these calls return are the stream `observe`, and a response missing either key, where the subscript raises `KeyError`, is not modelled.
- `time.sleep` and every `print`: wall-clock time and logging. The sleep is replaced by the elapsed-time counter; the success or failure message of a submission is the `succeeded` flag of each `Attempt`.
- The real ACM and Route 53 calls: their responses are abstract values given by function parameters. Exceptions a client library raises on a rejected call are not modelled; every call returns a response.
- Polling.Wait: requires `sleep_time > 0`, so no run with a zero or negative interval is modelled. Some of those runs end: with a negative timeout the first check at ACM.py:50 fails at once, and a status that leaves `PENDING_VALIDATION` ends the loop at ACM.py:49. Others never end (zero or negative interval, non-negative timeout, status pending forever), which a terminating function cannot express; the whole interval range is excluded rather than split.
- Polling.WaitFrom: carries the same `sleep_time > 0` requirement as `Polling.Wait`, for the same reason.
- Polling.WaitForCertificateValidation: carries the same `sleep_time > 0` requirement as `Polling.Wait`, for the same reason.
- Default arguments (`subject_alternative_names=[]` at ACM.py:26, `sleep_time=5, timeout=600` at ACM.py:45): Dafny functions have no defaults, so every argument is an explicit parameter; `Polling.IssuedAfterTwoSleeps` uses the wait's defaults of 5 and 600.
- Missing `Type`, `Name` or `Value` keys inside a `ResourceRecord`: the model takes all three as present strings, as ACM always returns them. Only a missing `ResourceRecord` as a whole is modelled.
- Integer width: intervals, timeouts and the counter are unbounded integers. Python integers do not wrap, and fractional intervals are not modelled.
