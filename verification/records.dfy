/** Validation records returned by the certificate authority and the Route 53
    changes built from them (`get_resource_record_data`, `create_dns_record_set`). */
module Records {
  import opened Wrappers

  /** The `ResourceRecord` of one `DomainValidationOptions` entry. */
  datatype ResourceRecord = ResourceRecord(recordType: string, name: string, value: string)

  /** One `DomainValidationOptions` entry; the record is absent while the
      certificate authority has not generated it yet. */
  datatype DomainValidation = DomainValidation(domainName: string, resourceRecord: Option<ResourceRecord>)

  /** The change actions Route 53 accepts. */
  datatype Action = Create | Delete | Upsert

  datatype ResourceRecordValue = ResourceRecordValue(value: string)

  datatype ResourceRecordSet = ResourceRecordSet(
    name: string,
    recordType: string,
    resourceRecords: seq<ResourceRecordValue>,
    ttl: int)

  /** One entry of a Route 53 change batch. */
  datatype Change = Change(action: Action, recordSet: ResourceRecordSet)

  /** Time to live, in seconds, of every validation record the client writes. */
  const ValidationTtl := 300

  /** The fixed shape of a validation change: an upsert of a single value with
      the validation time to live. */
  predicate IsValidationUpsert(c: Change)
  {
    && c.action == Upsert
    && c.recordSet.ttl == ValidationTtl
    && |c.recordSet.resourceRecords| == 1
  }

  /** The validation record a change of the fixed shape writes. */
  function RecordOfChange(c: Change): ResourceRecord
    requires IsValidationUpsert(c)
  {
    ResourceRecord(c.recordSet.recordType, c.recordSet.name, c.recordSet.resourceRecords[0].value)
  }

  /** The (type, name, value) triple of a record; it carries the whole record. */
  function GetResourceRecordData(r: ResourceRecord): (t: (string, string, string))
    ensures ResourceRecord(t.0, t.1, t.2) == r
  {
    (r.recordType, r.name, r.value)
  }

  /** The change that upserts one validation record. */
  function UpsertChange(r: ResourceRecord): (c: Change)
    ensures IsValidationUpsert(c)
    ensures RecordOfChange(c) == r
  {
    var (recordType, name, value) := GetResourceRecordData(r);
    Change(Upsert, ResourceRecordSet(name, recordType, [ResourceRecordValue(value)], ValidationTtl))
  }

  /** Every change of the fixed shape is the upsert of the record it writes, so
      building and reading back are inverse to each other. */
  lemma UpsertChangeOfRecord(c: Change)
    requires IsValidationUpsert(c)
    ensures UpsertChange(RecordOfChange(c)) == c
  {
    var v := c.recordSet.resourceRecords;
    assert v == [v[0]];
  }

  /** Two records give the same change only when they are the same record. */
  lemma UpsertChangeInjective(a: ResourceRecord, b: ResourceRecord)
    ensures UpsertChange(a) == UpsertChange(b) <==> a == b
  {
    if UpsertChange(a) == UpsertChange(b) {
      assert RecordOfChange(UpsertChange(a)) == RecordOfChange(UpsertChange(b));
    }
  }

  /** `create_dns_record_set`: the change for one validation option; none when
      the option carries no record (`create_dns_record_set` fails on it). */
  function CreateDnsRecordSet(v: DomainValidation): (c: Option<Change>)
    ensures c.None? <==> v.resourceRecord.None?
    ensures c.Some? ==> IsValidationUpsert(c.value) && RecordOfChange(c.value) == v.resourceRecord.value
  {
    match v.resourceRecord
    case None => None
    case Some(r) => Some(UpsertChange(r))
  }
}
