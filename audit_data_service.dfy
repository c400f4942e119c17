// `AuditDataService.SaveAuditDataAsync`: the message upsert, then the
// replacement of its extracted values, as two independent writes. Nothing
// rolls the first write back when the second throws, although the
// interface's documentation calls the pair atomic.
module AuditDataService {
  import opened Wrappers
  import opened Domain
  import opened Store
  import AuditMessageRepository
  import ExtractedValuesRepository

  /** What one call does: success or the rethrown exception, the store calls
      made in order, and the tables afterwards. */
  datatype DataSave = DataSave(result: Outcome<StoreError>, calls: seq<StoreCall>, tables: Tables)

  /** `SaveAuditDataAsync` as a value; the values are stored under
      `message.Id`, whatever `extractedData.AuditRecordId` says. */
  function SaveAuditDataSpec(t: Tables, m: AuditMessage, data: ExtractedData, p: int, o: int, faults: set<StoreCall>): DataSave {
    match AuditMessageRepository.SaveTables(t, m, p, o, SaveMessage in faults)
    case Failure(e) => DataSave(Fail(e), [SaveMessage], t)
    case Success(t1) =>
      match ExtractedValuesRepository.Replace(t1, m.id, data.extractedFields, SaveValues in faults)
      case Failure(e) => DataSave(Fail(e), [SaveMessage, SaveValues], t1)
      case Success(t2) => DataSave(Pass, [SaveMessage, SaveValues], t2)
  }

  /** `SaveAuditDataAsync`. */
  method SaveAuditData(db: Database, m: AuditMessage, data: ExtractedData, p: int, o: int, faults: set<StoreCall>)
    returns (r: Outcome<StoreError>, calls: seq<StoreCall>)
    modifies db
    ensures r == SaveAuditDataSpec(old(db.tables), m, data, p, o, faults).result
    ensures calls == SaveAuditDataSpec(old(db.tables), m, data, p, o, faults).calls
    ensures db.tables == SaveAuditDataSpec(old(db.tables), m, data, p, o, faults).tables
  {
    calls := [SaveMessage];
    var saved := AuditMessageRepository.Save(db, m, p, o, SaveMessage in faults);
    if saved.Fail? {
      return saved, calls;
    }
    calls := calls + [SaveValues];
    r := ExtractedValuesRepository.Save(db, m.id, data.extractedFields, SaveValues in faults);
  }

  /** The message is saved first; the values are written only after the
      message save succeeded, and then always, even for an empty
      dictionary. */
  lemma {:induction false} MessageBeforeValues(t: Tables, m: AuditMessage, data: ExtractedData, p: int, o: int, faults: set<StoreCall>)
    ensures var s := SaveAuditDataSpec(t, m, data, p, o, faults);
      s.calls == (if AuditMessageRepository.SaveTables(t, m, p, o, SaveMessage in faults).Success?
                  then [SaveMessage, SaveValues] else [SaveMessage])
  {
  }

  /** A failed message save propagates its exception and changes nothing. */
  lemma MessageFailureStops(t: Tables, m: AuditMessage, data: ExtractedData, p: int, o: int, faults: set<StoreCall>)
    requires SaveMessage in faults || AuditMessageRepository.OffsetTaken(t.auditLogs, m.id, p, o)
    ensures SaveAuditDataSpec(t, m, data, p, o, faults).tables == t
    ensures SaveAuditDataSpec(t, m, data, p, o, faults).result
      == Fail(if SaveMessage in faults then Unavailable else UniqueViolation)
  {
  }

  /** No rollback: when the values write throws, the message row written
      just before stays, with its counter already incremented. */
  lemma NoRollback(t: Tables, m: AuditMessage, data: ExtractedData, p: int, o: int, faults: set<StoreCall>)
    requires SaveMessage !in faults && !AuditMessageRepository.OffsetTaken(t.auditLogs, m.id, p, o)
    requires SaveValues in faults && |data.extractedFields| > 0
    ensures SaveAuditDataSpec(t, m, data, p, o, faults).result == Fail(Unavailable)
    ensures SaveAuditDataSpec(t, m, data, p, o, faults).tables.auditLogs[m.id]
      == AuditRow(m, p, o, AuditMessageRepository.Counter(t.auditLogs, m.id) + 1)
    ensures SaveAuditDataSpec(t, m, data, p, o, faults).tables.extractedValues == t.extractedValues
  {
  }

  /** After a successful call the message's value rows are exactly the
      dictionary's entries (or untouched, for an empty dictionary), keyed
      by the message id; `AuditRecordId` plays no part. */
  lemma ValuesUnderMessageId(t: Tables, m: AuditMessage, data: ExtractedData, p: int, o: int, faults: set<StoreCall>, recordId: string)
    requires SaveAuditDataSpec(t, m, data, p, o, faults).result == Pass
    ensures |data.extractedFields| > 0 ==>
      ExtractedValuesRepository.RowsFor(SaveAuditDataSpec(t, m, data, p, o, faults).tables.extractedValues, m.id)
        == ExtractedValuesRepository.EntryRows(m.id, data.extractedFields)
    ensures |data.extractedFields| == 0 ==>
      SaveAuditDataSpec(t, m, data, p, o, faults).tables.extractedValues == t.extractedValues
    ensures SaveAuditDataSpec(t, m, data.(auditRecordId := recordId), p, o, faults) == SaveAuditDataSpec(t, m, data, p, o, faults)
  {
    var t1 := AuditMessageRepository.SaveTables(t, m, p, o, SaveMessage in faults).value;
    if |data.extractedFields| > 0 {
      ExtractedValuesRepository.ReplaceContents(t1, m.id, data.extractedFields, SaveValues in faults, m.id);
    }
  }

  /** Whatever the outcome, the call keeps the schema's constraints. */
  lemma KeepsValidTables(t: Tables, m: AuditMessage, data: ExtractedData, p: int, o: int, faults: set<StoreCall>)
    requires ValidTables(t)
    ensures ValidTables(SaveAuditDataSpec(t, m, data, p, o, faults).tables)
  {
    var saved := AuditMessageRepository.SaveTables(t, m, p, o, SaveMessage in faults);
    if saved.Success? {
      var t1 := saved.value;
      AuditMessageRepository.MergeKeepsConstraints(t.auditLogs, m, p, o);
      assert ValuesReferenceLogs(t1);
      var replaced := ExtractedValuesRepository.Replace(t1, m.id, data.extractedFields, SaveValues in faults);
      if replaced.Success? {
        ExtractedValuesRepository.ReplaceKeepsForeignKey(t1, m.id, data.extractedFields, SaveValues in faults);
      }
    }
  }
}
