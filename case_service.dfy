// `CaseService.CreateCaseWithExtractionsAsync`: at most one case per audit
// log. An empty value list makes no store call; an existing case for the
// message makes no write; otherwise one OPEN case is created, then one
// denormalised `CaseExtraction` per value, in order. Every repository
// exception is rethrown unchanged.
module CaseService {
  import opened Wrappers
  import opened Domain
  import opened Store
  import opened Guids
  import CaseRepository
  import CaseExtractionRepository

  /** The case a message opens: status OPEN, `Valid` null, not resolved.
      `now` stands for both clock readings of `CreatedAt` and `UpdatedAt`. */
  function NewCase(caseId: string, auditLogId: string, now: int): Case {
    Case(caseId, auditLogId, "OPEN", None, now, now, None, None, None)
  }

  /** The `Select` body: one extracted value as a row of its case, with the
      identifier `id`. */
  function Extract(id: string, caseId: string, auditLogId: string, v: ExtractedValue, now: int): CaseExtraction {
    CaseExtraction(id, caseId, auditLogId, v.ruleId, v.ruleName, v.regexPattern, v.sourceField, Some(v.value), now)
  }

  /** The `Select(...).ToList()`: the k-th value gets the k-th identifier
      drawn after `g`. */
  function Extractions(caseId: string, auditLogId: string, values: seq<ExtractedValue>, g: nat, now: int): (r: seq<CaseExtraction>)
    ensures |r| == |values|
    ensures forall i :: 0 <= i < |values| ==> r[i] == Extract(GuidText(g + i), caseId, auditLogId, values[i], now)
  {
    if values == [] then []
    else
      Extractions(caseId, auditLogId, values[..|values| - 1], g, now)
      + [Extract(GuidText(g + |values| - 1), caseId, auditLogId, values[|values| - 1], now)]
  }

  /** What one call does: its return value or rethrown exception, the store
      calls it made in order, the tables afterwards, and the next unused
      identifier. */
  datatype CaseCreation = CaseCreation(
    result: Result<Option<string>, StoreError>,
    calls: seq<StoreCall>,
    tables: Tables,
    nextGuid: nat)

  /** `CreateCaseWithExtractionsAsync` as a value. `g` is the next
      identifier the GUID source hands out; `faults` are the store calls
      that throw. */
  function CreateCaseSpec(t: Tables, g: nat, m: AuditMessage, values: seq<ExtractedValue>, now: int, faults: set<StoreCall>): CaseCreation {
    if |values| == 0 then CaseCreation(Success(None), [], t, g)
    else if CaseExists in faults then CaseCreation(Failure(Unavailable), [CaseExists], t, g)
    else if CaseRepository.ExistsForAuditLog(t.cases, m.id) then CaseCreation(Success(None), [CaseExists], t, g)
    else
      var caseId := GuidText(g);
      if CreateCase in faults then CaseCreation(Failure(Unavailable), [CaseExists, CreateCase], t, g + 1)
      else
        var t1 := t.(cases := t.cases + [NewCase(caseId, m.id, now)]);
        var batch := Extractions(caseId, m.id, values, g + 1, now);
        if CreateBatch in faults then
          CaseCreation(Failure(Unavailable), [CaseExists, CreateCase, CreateBatch], t1, g + 1 + |values|)
        else
          CaseCreation(Success(Some(caseId)), [CaseExists, CreateCase, CreateBatch],
            t1.(caseExtractions := t.caseExtractions + batch), g + 1 + |values|)
  }

  /** `CreateCaseWithExtractionsAsync`, over the shared database and GUID
      source; `calls` is the sequence of repository calls it made. */
  method CreateCaseWithExtractions(db: Database, guids: GuidSource, m: AuditMessage, values: seq<ExtractedValue>, now: int, faults: set<StoreCall>)
    returns (r: Result<Option<string>, StoreError>, calls: seq<StoreCall>)
    modifies db, guids
    ensures r == CreateCaseSpec(old(db.tables), old(guids.next), m, values, now, faults).result
    ensures calls == CreateCaseSpec(old(db.tables), old(guids.next), m, values, now, faults).calls
    ensures db.tables == CreateCaseSpec(old(db.tables), old(guids.next), m, values, now, faults).tables
    ensures guids.next == CreateCaseSpec(old(db.tables), old(guids.next), m, values, now, faults).nextGuid
  {
    calls := [];
    if |values| == 0 {
      return Success(None), calls;
    }
    calls := calls + [CaseExists];
    if CaseExists in faults {
      return Failure(Unavailable), calls;
    }
    if CaseRepository.ExistsForAuditLog(db.tables.cases, m.id) {
      return Success(None), calls;
    }
    var caseId := guids.NewGuid();
    calls := calls + [CreateCase];
    var created := CaseRepository.Create(db, NewCase(caseId, m.id, now), CreateCase in faults);
    if created.Failure? {
      return Failure(created.error), calls;
    }
    var batch := BuildBatch(guids, caseId, m.id, values, now);
    calls := calls + [CreateBatch];
    var inserted := CaseExtractionRepository.CreateBatch(db, batch, CreateBatch in faults);
    if inserted.Failure? {
      return Failure(inserted.error), calls;
    }
    r := Success(Some(caseId));
  }

  /** The `Select(...).ToList()` loop: one fresh identifier per value. */
  method BuildBatch(guids: GuidSource, caseId: string, auditLogId: string, values: seq<ExtractedValue>, now: int)
    returns (batch: seq<CaseExtraction>)
    modifies guids
    ensures batch == Extractions(caseId, auditLogId, values, old(guids.next), now)
    ensures guids.next == old(guids.next) + |values|
  {
    var g := guids.next;
    batch := [];
    var i := 0;
    while i < |values|
      invariant 0 <= i <= |values|
      invariant guids.next == g + i
      invariant batch == Extractions(caseId, auditLogId, values[..i], g, now)
    {
      assert values[..i + 1][..i] == values[..i];
      var id := guids.NewGuid();
      batch := batch + [Extract(id, caseId, auditLogId, values[i], now)];
      i := i + 1;
    }
    assert values[..i] == values;
  }

  /** No values: no store call, no change, null. */
  lemma {:induction false} NoValuesNoCalls(t: Tables, g: nat, m: AuditMessage, now: int, faults: set<StoreCall>)
    ensures CreateCaseSpec(t, g, m, [], now, faults) == CaseCreation(Success(None), [], t, g)
  {
  }

  /** A case already open for the message: only the existence check runs,
      nothing is written and null is returned. */
  lemma ExistingCaseNoWrites(t: Tables, g: nat, m: AuditMessage, values: seq<ExtractedValue>, now: int, faults: set<StoreCall>)
    requires |values| > 0 && CaseExists !in faults
    requires exists i :: 0 <= i < |t.cases| && t.cases[i].auditLogId == m.id
    ensures CreateCaseSpec(t, g, m, values, now, faults) == CaseCreation(Success(None), [CaseExists], t, g)
  {
    CaseRepository.ExistsAgreesWithGet(t.cases, m.id);
  }

  /** The call throws exactly when one of the repository calls it reaches
      throws, and it rethrows that exception unchanged. */
  lemma FailsOnlyOnFault(t: Tables, g: nat, m: AuditMessage, values: seq<ExtractedValue>, now: int, faults: set<StoreCall>)
    ensures CreateCaseSpec(t, g, m, values, now, faults).result.Failure? <==>
      |values| > 0 && (CaseExists in faults
        || (!CaseRepository.ExistsForAuditLog(t.cases, m.id) && (CreateCase in faults || CreateBatch in faults)))
    ensures CreateCaseSpec(t, g, m, values, now, faults).result.Failure? ==>
      CreateCaseSpec(t, g, m, values, now, faults).result.error == Unavailable
  {
  }

  /** The existence check comes first, the case is created before the
      batch, and the batch is attempted only after the case was created. */
  lemma CallOrder(t: Tables, g: nat, m: AuditMessage, values: seq<ExtractedValue>, now: int, faults: set<StoreCall>)
    ensures CreateCaseSpec(t, g, m, values, now, faults).calls in
      {[], [CaseExists], [CaseExists, CreateCase], [CaseExists, CreateCase, CreateBatch]}
    ensures CreateCaseSpec(t, g, m, values, now, faults).calls == [] <==> |values| == 0
    ensures (CreateCaseSpec(t, g, m, values, now, faults).result.Success? &&
      CreateCaseSpec(t, g, m, values, now, faults).result.value.Some?) ==>
      CreateCaseSpec(t, g, m, values, now, faults).calls == [CaseExists, CreateCase, CreateBatch]
  {
  }

  /** A created case: the id returned is the case's id; the case is OPEN,
      `Valid` null and unresolved, for this message; one extraction per
      value in the same order, each copying the value's rule data, all
      tied to the case and the message, with pairwise distinct ids that
      also differ from the case id. */
  lemma CreatedShape(t: Tables, g: nat, m: AuditMessage, values: seq<ExtractedValue>, now: int, faults: set<StoreCall>)
    requires CreateCaseSpec(t, g, m, values, now, faults).result.Success?
    requires CreateCaseSpec(t, g, m, values, now, faults).result.value.Some?
    ensures var s := CreateCaseSpec(t, g, m, values, now, faults);
      var caseId := s.result.value.value;
      var batch := s.tables.caseExtractions[|t.caseExtractions|..];
      && |s.tables.cases| == |t.cases| + 1
      && s.tables.cases[..|t.cases|] == t.cases
      && var c := s.tables.cases[|t.cases|];
      && c.id == caseId && c.auditLogId == m.id && c.caseStatus == "OPEN" && c.valid.None?
      && c.resolvedAt.None? && c.resolvedBy.None? && c.resolutionNotes.None?
      && |s.tables.caseExtractions| == |t.caseExtractions| + |values|
      && s.tables.caseExtractions[..|t.caseExtractions|] == t.caseExtractions
      && (forall i :: 0 <= i < |values| ==>
        batch[i].caseId == caseId && batch[i].auditLogId == m.id
        && batch[i].ruleId == values[i].ruleId && batch[i].ruleName == values[i].ruleName
        && batch[i].regexPattern == values[i].regexPattern && batch[i].sourceField == values[i].sourceField
        && batch[i].fieldValue == Some(values[i].value) && batch[i].id != caseId)
      && (forall i, j :: 0 <= i < j < |values| ==> batch[i].id != batch[j].id)
  {
    var s := CreateCaseSpec(t, g, m, values, now, faults);
    var caseId := GuidText(g);
    var batch := Extractions(caseId, m.id, values, g + 1, now);
    assert s.tables.caseExtractions == t.caseExtractions + batch;
    assert s.tables.caseExtractions[|t.caseExtractions|..] == batch;
    forall i | 0 <= i < |values| ensures batch[i].id != caseId {
      if batch[i].id == caseId {
        GuidTextInjective(g + 1 + i, g);
      }
    }
    forall i, j | 0 <= i < j < |values| ensures batch[i].id != batch[j].id {
      if batch[i].id == batch[j].id {
        GuidTextInjective(g + 1 + i, g + 1 + j);
      }
    }
  }

  /** The rows of the new case read back by case id are exactly the batch,
      when the fresh case id was not in the table before. */
  lemma CreatedReadBack(t: Tables, g: nat, m: AuditMessage, values: seq<ExtractedValue>, now: int, faults: set<StoreCall>)
    requires CreateCaseSpec(t, g, m, values, now, faults).result.Success?
    requires CreateCaseSpec(t, g, m, values, now, faults).result.value.Some?
    requires forall i :: 0 <= i < |t.caseExtractions| ==> t.caseExtractions[i].caseId != GuidText(g)
    ensures CaseExtractionRepository.Where(CreateCaseSpec(t, g, m, values, now, faults).tables.caseExtractions, CaseExtractionRepository.CaseIdColumn, GuidText(g))
      == Extractions(GuidText(g), m.id, values, g + 1, now)
  {
    var batch := Extractions(GuidText(g), m.id, values, g + 1, now);
    assert CreateCaseSpec(t, g, m, values, now, faults).tables.caseExtractions == t.caseExtractions + batch;
    CaseExtractionRepository.BatchReadBack(t.caseExtractions, batch, GuidText(g));
    CaseExtractionRepository.NoneOfCase(t.caseExtractions, GuidText(g));
    assert [] + batch == batch;
  }

  /** Creation keeps at most one case per audit log. */
  lemma KeepsOneCasePerAuditLog(t: Tables, g: nat, m: AuditMessage, values: seq<ExtractedValue>, now: int, faults: set<StoreCall>)
    requires CaseRepository.OneCasePerAuditLog(t.cases)
    ensures CaseRepository.OneCasePerAuditLog(CreateCaseSpec(t, g, m, values, now, faults).tables.cases)
  {
    if |values| > 0 && CaseExists !in faults && !CaseRepository.ExistsForAuditLog(t.cases, m.id) && CreateCase !in faults {
      CaseRepository.CreateKeepsOneCasePerAuditLog(t.cases, NewCase(GuidText(g), m.id, now));
    }
  }

  /** Redelivery: once a case was created for a message, a second call for
      the same message writes nothing and returns null, whatever values it
      carries and whenever the clock reads. */
  lemma SecondCallIsNoOp(t: Tables, g: nat, m: AuditMessage, values: seq<ExtractedValue>, values2: seq<ExtractedValue>,
                         now: int, now2: int, faults: set<StoreCall>)
    requires CreateCaseSpec(t, g, m, values, now, faults).result == Success(Some(GuidText(g)))
    requires |values2| > 0
    ensures var s := CreateCaseSpec(t, g, m, values, now, faults);
      CreateCaseSpec(s.tables, s.nextGuid, m, values2, now2, {}) == CaseCreation(Success(None), [CaseExists], s.tables, s.nextGuid)
  {
    CaseRepository.CreateThenFind(t.cases, NewCase(GuidText(g), m.id, now));
  }
}
