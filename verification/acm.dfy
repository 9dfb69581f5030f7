/** The orchestration of `DNSValidatedACMCertClient`: the certificate request,
    the reading of the validation options, and the submission of one Route 53
    change batch per distinct validation change. Calls into the cloud services
    are parameters over an abstract response type `R`, and `succeeded` stands
    for the helper that judges a response. */
module Acm {
  import opened Wrappers
  import opened Distinct
  import opened Records
  import opened Zones

  /** The arguments of ACM's RequestCertificate call. */
  datatype CertificateRequest = CertificateRequest(
    domainName: string,
    validationMethod: string,
    subjectAlternativeNames: Option<seq<string>>)

  /** The parts of a DescribeCertificate response the client reads; each key
      may be absent. */
  datatype CertificateDetail = CertificateDetail(domainValidationOptions: Option<seq<DomainValidation>>)
  datatype CertificateDescription = CertificateDescription(certificate: Option<CertificateDetail>)

  /** The arguments of one Route 53 ChangeResourceRecordSets call. */
  datatype ChangeBatch = ChangeBatch(hostedZoneId: string, changes: seq<Change>)

  /** One submitted batch and whether its response was judged a success. */
  datatype Attempt = Attempt(batch: ChangeBatch, succeeded: bool)

  /** How the record creation ends: all distinct changes submitted, stopped
      before any submission by an option without a record, or stopped at the
      first change whose name no hosted zone matches. */
  datatype Outcome = Completed | MissingResourceRecord | ZoneNotFound(recordName: string)

  datatype Run = Run(attempts: seq<Attempt>, outcome: Outcome)

  /** The request `request_certificate` sends: DNS validation for the client's
      domain, with the alternative names only when there are any. */
  function CertificateRequestFor(domain: string, subjectAlternativeNames: seq<string>): (req: CertificateRequest)
    ensures req.domainName == domain && req.validationMethod == "DNS"
    ensures req.subjectAlternativeNames.Some? <==> |subjectAlternativeNames| > 0
    ensures req.subjectAlternativeNames.Some? ==> req.subjectAlternativeNames.value == subjectAlternativeNames
  {
    if |subjectAlternativeNames| > 0 then
      CertificateRequest(domain, "DNS", Some(subjectAlternativeNames))
    else
      CertificateRequest(domain, "DNS", None)
  }

  /** `request_certificate`: the certificate ARN of a successful response, and
      nothing when the response was not a success. */
  function RequestCertificate<R>(
    domain: string,
    subjectAlternativeNames: seq<string>,
    call: CertificateRequest -> R,
    succeeded: R -> bool,
    certificateArn: R -> Option<string>): (arn: Option<string>)
    ensures var response := call(CertificateRequestFor(domain, subjectAlternativeNames));
      arn.Some? ==> succeeded(response) && arn == certificateArn(response)
    ensures var response := call(CertificateRequestFor(domain, subjectAlternativeNames));
      succeeded(response) ==> arn == certificateArn(response)
    ensures var response := call(CertificateRequestFor(domain, subjectAlternativeNames));
      !succeeded(response) ==> arn.None?
  {
    var response := call(CertificateRequestFor(domain, subjectAlternativeNames));
    if succeeded(response) then certificateArn(response) else None
  }

  /** `get_domain_validation_records`: the validation options of a certificate
      description, empty when either key is missing. */
  function GetDomainValidationRecords(description: CertificateDescription): (options: seq<DomainValidation>)
    ensures description.certificate.None? ==> options == []
    ensures description.certificate.Some? && description.certificate.value.domainValidationOptions.None? ==> options == []
    ensures description.certificate.Some? && description.certificate.value.domainValidationOptions.Some? ==>
      options == description.certificate.value.domainValidationOptions.value
  {
    match description.certificate
    case None => []
    case Some(detail) =>
      match detail.domainValidationOptions
      case None => []
      case Some(options) => options
  }

  /** The list comprehension of `create_domain_validation_records`: one change
      per option, in order; none at all when some option has no record. */
  function BuildChanges(options: seq<DomainValidation>): (changes: Option<seq<Change>>)
    ensures changes.None? <==> exists i :: 0 <= i < |options| && options[i].resourceRecord.None?
    ensures changes.Some? ==>
      && |changes.value| == |options|
      && forall i :: 0 <= i < |options| ==>
           && options[i].resourceRecord.Some?
           && changes.value[i] == UpsertChange(options[i].resourceRecord.value)
  {
    if |options| == 0 then Some([])
    else
      match CreateDnsRecordSet(options[0])
      case None => None
      case Some(first) =>
        match BuildChanges(options[1..])
        case None =>
          assert forall i :: 0 <= i < |options| - 1 ==> options[1..][i] == options[i + 1];
          None
        case Some(rest) =>
          assert forall i :: 1 <= i < |options| ==> options[i] == options[1..][i - 1];
          Some([first] + rest)
  }

  /** `get_hosted_zone_id` over a fixed zone listing, as a map from record
      names to zone ids. */
  function ZoneResolver(extract: string -> DomainParts, zones: seq<HostedZone>): string -> Option<string>
  {
    (recordName: string) => GetHostedZoneId(extract, zones, recordName)
  }

  /** The attempt for one change: a batch holding just that change, sent to
      the zone its record name resolves to, judged by the response. */
  predicate SubmitsChange<R>(
    a: Attempt,
    c: Change,
    resolve: string -> Option<string>,
    submit: ChangeBatch -> R,
    succeeded: R -> bool)
  {
    && resolve(c.recordSet.name).Some?
    && a.batch == ChangeBatch(resolve(c.recordSet.name).value, [c])
    && a.succeeded == succeeded(submit(a.batch))
  }

  /** The submission loop: for each change in order, resolve its zone and send
      a batch holding just that change; stop at the first change no zone
      matches. Responses are judged but never stop the loop. */
  function SubmitEach<R>(
    changes: seq<Change>,
    resolve: string -> Option<string>,
    submit: ChangeBatch -> R,
    succeeded: R -> bool): Run
  {
    if |changes| == 0 then Run([], Completed)
    else
      var recordName := changes[0].recordSet.name;
      match resolve(recordName)
      case None => Run([], ZoneNotFound(recordName))
      case Some(hostedZoneId) =>
        var batch := ChangeBatch(hostedZoneId, [changes[0]]);
        var rest := SubmitEach(changes[1..], resolve, submit, succeeded);
        Run([Attempt(batch, succeeded(submit(batch)))] + rest.attempts, rest.outcome)
  }

  /** The i-th attempt submits the i-th change to its zone; the loop completes
      exactly when every change was sent, and otherwise stops at a change whose
      record name no zone matches. */
  lemma {:induction false} SubmitEachSpec<R>(
    changes: seq<Change>,
    resolve: string -> Option<string>,
    submit: ChangeBatch -> R,
    succeeded: R -> bool)
    ensures var run := SubmitEach(changes, resolve, submit, succeeded);
      && |run.attempts| <= |changes|
      && (run.outcome.Completed? <==> |run.attempts| == |changes|)
      && !run.outcome.MissingResourceRecord?
      && (forall i :: 0 <= i < |run.attempts| ==>
            SubmitsChange(run.attempts[i], changes[i], resolve, submit, succeeded))
      && (run.outcome.ZoneNotFound? ==>
            && run.outcome.recordName == changes[|run.attempts|].recordSet.name
            && resolve(run.outcome.recordName).None?)
  {
    if |changes| > 0 {
      var zoneId := resolve(changes[0].recordSet.name);
      if zoneId.Some? {
        SubmitEachSpec(changes[1..], resolve, submit, succeeded);
        var run := SubmitEach(changes, resolve, submit, succeeded);
        var rest := SubmitEach(changes[1..], resolve, submit, succeeded);
        var batch := ChangeBatch(zoneId.value, [changes[0]]);
        assert run.attempts == [Attempt(batch, succeeded(submit(batch)))] + rest.attempts;
        forall i | 1 <= i < |run.attempts|
          ensures SubmitsChange(run.attempts[i], changes[i], resolve, submit, succeeded)
        {
          assert run.attempts[i] == rest.attempts[i - 1];
          assert changes[i] == changes[1..][i - 1];
        }
      }
    }
  }

  /** The changes `create_domain_validation_records` submits for a description:
      the de-duplicated changes of its options, or none when an option has no
      record. */
  function UniqueChanges(description: CertificateDescription): Option<seq<Change>>
  {
    match BuildChanges(GetDomainValidationRecords(description))
    case None => None
    case Some(changes) => Some(RemoveDuplicates(changes))
  }

  /** `create_domain_validation_records`, given the certificate's description:
      build a change per validation option, drop repeated changes keeping the
      first, and submit one batch per remaining change. */
  function CreateDomainValidationRecords<R>(
    description: CertificateDescription,
    extract: string -> DomainParts,
    zones: seq<HostedZone>,
    submit: ChangeBatch -> R,
    succeeded: R -> bool): (run: Run)
    ensures var options := GetDomainValidationRecords(description);
      run.outcome.MissingResourceRecord? <==> exists i :: 0 <= i < |options| && options[i].resourceRecord.None?
    ensures run.outcome.MissingResourceRecord? ==> run.attempts == []
    ensures forall i :: 0 <= i < |run.attempts| ==>
      |run.attempts[i].batch.changes| == 1 && IsValidationUpsert(run.attempts[i].batch.changes[0])
  {
    match UniqueChanges(description)
    case None => Run([], MissingResourceRecord)
    case Some(uniqueChanges) =>
      SubmitEachSpec(uniqueChanges, ZoneResolver(extract, zones), submit, succeeded);
      SubmitEach(uniqueChanges, ZoneResolver(extract, zones), submit, succeeded)
  }

  /** The batches of a run submit the de-duplicated changes in order, one per
      batch, each to the zone its record name resolves to. */
  lemma RunFollowsUniqueChanges<R>(
    description: CertificateDescription,
    extract: string -> DomainParts,
    zones: seq<HostedZone>,
    submit: ChangeBatch -> R,
    succeeded: R -> bool)
    requires UniqueChanges(description).Some?
    ensures var run := CreateDomainValidationRecords(description, extract, zones, submit, succeeded);
      var unique := UniqueChanges(description).value;
      && |run.attempts| <= |unique|
      && (run.outcome.Completed? <==> |run.attempts| == |unique|)
      && (forall j :: 0 <= j < |run.attempts| ==>
            && run.attempts[j].batch.changes == [unique[j]]
            && GetHostedZoneId(extract, zones, unique[j].recordSet.name) == Some(run.attempts[j].batch.hostedZoneId))
      && (run.outcome.ZoneNotFound? ==>
            && run.outcome.recordName == unique[|run.attempts|].recordSet.name
            && GetHostedZoneId(extract, zones, run.outcome.recordName).None?)
  {
    SubmitEachSpec(UniqueChanges(description).value, ZoneResolver(extract, zones), submit, succeeded);
  }

  /** No change is submitted twice in one run. */
  lemma NoChangeSubmittedTwice<R>(
    description: CertificateDescription,
    extract: string -> DomainParts,
    zones: seq<HostedZone>,
    submit: ChangeBatch -> R,
    succeeded: R -> bool)
    ensures var run := CreateDomainValidationRecords(description, extract, zones, submit, succeeded);
      forall i, j :: 0 <= i < j < |run.attempts| ==>
        run.attempts[i].batch.changes != run.attempts[j].batch.changes
  {
    if UniqueChanges(description).Some? {
      RunFollowsUniqueChanges(description, extract, zones, submit, succeeded);
    }
  }

  /** Every submitted change is the upsert of the record of some option. */
  lemma SubmittedChangesComeFromOptions<R>(
    description: CertificateDescription,
    extract: string -> DomainParts,
    zones: seq<HostedZone>,
    submit: ChangeBatch -> R,
    succeeded: R -> bool)
    ensures var run := CreateDomainValidationRecords(description, extract, zones, submit, succeeded);
      var options := GetDomainValidationRecords(description);
      forall j :: 0 <= j < |run.attempts| ==>
        exists i :: && 0 <= i < |options|
                    && options[i].resourceRecord.Some?
                    && run.attempts[j].batch.changes == [UpsertChange(options[i].resourceRecord.value)]
  {
    if UniqueChanges(description).Some? {
      RunFollowsUniqueChanges(description, extract, zones, submit, succeeded);
      var options := GetDomainValidationRecords(description);
      var changes := BuildChanges(options).value;
      var unique := RemoveDuplicates(changes);
      var run := CreateDomainValidationRecords(description, extract, zones, submit, succeeded);
      forall j | 0 <= j < |run.attempts|
        ensures exists i :: && 0 <= i < |options|
                            && options[i].resourceRecord.Some?
                            && run.attempts[j].batch.changes == [UpsertChange(options[i].resourceRecord.value)]
      {
        assert unique[j] in changes;
        var i :| 0 <= i < |changes| && changes[i] == unique[j];
        assert run.attempts[j].batch.changes == [UpsertChange(options[i].resourceRecord.value)];
      }
    }
  }

  /** A run that completes has submitted the change of every option. */
  lemma CompletedRunCoversEveryOption<R>(
    description: CertificateDescription,
    extract: string -> DomainParts,
    zones: seq<HostedZone>,
    submit: ChangeBatch -> R,
    succeeded: R -> bool)
    ensures var run := CreateDomainValidationRecords(description, extract, zones, submit, succeeded);
      var options := GetDomainValidationRecords(description);
      run.outcome.Completed? ==>
        forall i :: 0 <= i < |options| ==>
          && options[i].resourceRecord.Some?
          && exists j :: 0 <= j < |run.attempts|
                         && run.attempts[j].batch.changes == [UpsertChange(options[i].resourceRecord.value)]
  {
    var run := CreateDomainValidationRecords(description, extract, zones, submit, succeeded);
    if run.outcome.Completed? {
      RunFollowsUniqueChanges(description, extract, zones, submit, succeeded);
      var options := GetDomainValidationRecords(description);
      var changes := BuildChanges(options).value;
      var unique := RemoveDuplicates(changes);
      forall i | 0 <= i < |options|
        ensures exists j :: 0 <= j < |run.attempts|
                            && run.attempts[j].batch.changes == [UpsertChange(options[i].resourceRecord.value)]
      {
        assert changes[i] in unique;
        var j :| 0 <= j < |unique| && unique[j] == changes[i];
        assert run.attempts[j].batch.changes == [changes[i]];
      }
    }
  }

  /** The records of options that all carry one. */
  function RecordsOf(options: seq<DomainValidation>): (records: seq<ResourceRecord>)
    requires forall i :: 0 <= i < |options| ==> options[i].resourceRecord.Some?
    ensures |records| == |options|
  {
    seq(|options|, i requires 0 <= i < |options| => options[i].resourceRecord.value)
  }

  /** Exactly one change is submitted per distinct (type, name, value) record,
      in the order the records are first seen. */
  lemma OneChangePerDistinctRecord(description: CertificateDescription)
    requires var options := GetDomainValidationRecords(description);
      forall i :: 0 <= i < |options| ==> options[i].resourceRecord.Some?
    ensures UniqueChanges(description)
      == Some(MapSeq(UpsertChange, RemoveDuplicates(RecordsOf(GetDomainValidationRecords(description)))))
  {
    var records := RecordsOf(GetDomainValidationRecords(description));
    assert BuildChanges(GetDomainValidationRecords(description)).value == MapSeq(UpsertChange, records);
    forall a, b | UpsertChange(a) == UpsertChange(b)
      ensures a == b
    {
      UpsertChangeInjective(a, b);
    }
    RemoveDuplicatesCommutesWithInjective(UpsertChange, records);
  }

  /** The batches a run submitted, in order. */
  function Batches(run: Run): (batches: seq<ChangeBatch>)
    ensures |batches| == |run.attempts|
  {
    seq(|run.attempts|, i requires 0 <= i < |run.attempts| => run.attempts[i].batch)
  }

  lemma {:induction false} SubmitEachIgnoresResponses<R>(
    changes: seq<Change>,
    resolve: string -> Option<string>,
    submit: ChangeBatch -> R,
    succeeded: R -> bool,
    succeeded': R -> bool)
    ensures var run := SubmitEach(changes, resolve, submit, succeeded);
      var run' := SubmitEach(changes, resolve, submit, succeeded');
      Batches(run) == Batches(run') && run.outcome == run'.outcome
  {
    if |changes| > 0 {
      var zoneId := resolve(changes[0].recordSet.name);
      if zoneId.Some? {
        SubmitEachIgnoresResponses(changes[1..], resolve, submit, succeeded, succeeded');
        var batch := ChangeBatch(zoneId.value, [changes[0]]);
        var rest := SubmitEach(changes[1..], resolve, submit, succeeded);
        var rest' := SubmitEach(changes[1..], resolve, submit, succeeded');
        BatchesOfCons(Attempt(batch, succeeded(submit(batch))), rest);
        BatchesOfCons(Attempt(batch, succeeded'(submit(batch))), rest');
      }
    }
  }

  lemma BatchesOfCons(a: Attempt, run: Run)
    ensures Batches(Run([a] + run.attempts, run.outcome)) == [a.batch] + Batches(run)
  {
  }

  /** A response judged unsuccessful does not stop later submissions: which batches are sent,
      and how the run ends, do not depend on how the responses are judged. */
  lemma ResponsesDoNotStopSubmissions<R>(
    description: CertificateDescription,
    extract: string -> DomainParts,
    zones: seq<HostedZone>,
    submit: ChangeBatch -> R,
    succeeded: R -> bool,
    succeeded': R -> bool)
    ensures var run := CreateDomainValidationRecords(description, extract, zones, submit, succeeded);
      var run' := CreateDomainValidationRecords(description, extract, zones, submit, succeeded');
      Batches(run) == Batches(run') && run.outcome == run'.outcome
  {
    if UniqueChanges(description).Some? {
      SubmitEachIgnoresResponses(UniqueChanges(description).value, ZoneResolver(extract, zones), submit, succeeded, succeeded');
    }
  }

  /** A request for `www.example.com` carries alternative names only when some
      are given. */
  lemma RequestShapeExamples()
    ensures CertificateRequestFor("www.example.com", [])
      == CertificateRequest("www.example.com", "DNS", None)
    ensures CertificateRequestFor("www.example.com", ["api.example.com"])
      == CertificateRequest("www.example.com", "DNS", Some(["api.example.com"]))
  {
  }
}
