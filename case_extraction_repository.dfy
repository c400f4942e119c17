// `CaseExtractionRepository`: insert a batch of extractions, one row per
// element, and read them back by case or by audit log, ordered by
// `EXTRACTED_AT`.
module CaseExtractionRepository {
  import opened Wrappers
  import opened Domain
  import opened Store
  import opened Seqs

  /** `CreateBatchAsync`: an empty batch returns 0 before the connection is
      opened; otherwise Dapper runs the INSERT once per element and the
      number of inserted rows is returned. */
  method CreateBatch(db: Database, batch: seq<CaseExtraction>, fault: bool) returns (r: Result<int, StoreError>)
    modifies db
    ensures |batch| == 0 ==> r == Success(0) && db.tables == old(db.tables)
    ensures |batch| > 0 && fault ==> r == Failure(Unavailable) && db.tables == old(db.tables)
    ensures |batch| > 0 && !fault ==>
      r == Success(|batch|) && db.tables == old(db.tables).(caseExtractions := old(db.tables.caseExtractions) + batch)
  {
    if |batch| == 0 {
      return Success(0);
    }
    if fault {
      return Failure(Unavailable);
    }
    var affected := 0;
    while affected < |batch|
      invariant 0 <= affected <= |batch|
      invariant db.tables == old(db.tables).(caseExtractions := old(db.tables.caseExtractions) + batch[..affected])
    {
      assert batch[..affected + 1] == batch[..affected] + [batch[affected]];
      db.tables := db.tables.(caseExtractions := db.tables.caseExtractions + [batch[affected]]);
      affected := affected + 1;
    }
    assert batch[..affected] == batch;
    r := Success(affected);
  }

  /** The two columns the reads filter on. */
  datatype Column = CaseIdColumn | AuditLogIdColumn

  function ColumnValue(x: CaseExtraction, col: Column): string {
    match col
    case CaseIdColumn => x.caseId
    case AuditLogIdColumn => x.auditLogId
  }

  /** `WHERE CASE_ID = :CaseId` or `WHERE AUDIT_LOG_ID = :AuditLogId`, in
      table order. */
  function Where(rows: seq<CaseExtraction>, col: Column, v: string): (r: seq<CaseExtraction>)
    ensures forall x :: x in r <==> x in rows && ColumnValue(x, col) == v
  {
    if rows == [] then []
    else (if ColumnValue(rows[0], col) == v then [rows[0]] else []) + Where(rows[1..], col, v)
  }

  /** The SELECT of both reads: the filtered rows, `ORDER BY EXTRACTED_AT`. */
  function Query(rows: seq<CaseExtraction>, col: Column, v: string): seq<CaseExtraction> {
    SortBy(Where(rows, col, v), ExtractedAtKey)
  }

  /** `GetByCaseIdAsync`. */
  function GetByCaseId(rows: seq<CaseExtraction>, caseId: string): seq<CaseExtraction> {
    Query(rows, CaseIdColumn, caseId)
  }

  /** `GetByAuditLogIdAsync`. */
  function GetByAuditLogId(rows: seq<CaseExtraction>, auditLogId: string): seq<CaseExtraction> {
    Query(rows, AuditLogIdColumn, auditLogId)
  }

  /** Both reads return exactly the rows whose column holds the value, each
      as many times as stored, ascending by `EXTRACTED_AT`; rows with the
      same timestamp keep their table order. */
  lemma QuerySpec(rows: seq<CaseExtraction>, col: Column, v: string, x: CaseExtraction, at: int)
    ensures x in Query(rows, col, v) <==> x in rows && ColumnValue(x, col) == v
    ensures multiset(Query(rows, col, v)) == multiset(Where(rows, col, v))
    ensures SortedBy(Query(rows, col, v), ExtractedAtKey)
    ensures KeyRun(Query(rows, col, v), ExtractedAtKey, at) == KeyRun(Where(rows, col, v), ExtractedAtKey, at)
  {
    SortByIsSortedPermutation(Where(rows, col, v), ExtractedAtKey);
    SortByIsStable(Where(rows, col, v), ExtractedAtKey, at);
    assert x in Query(rows, col, v) <==> x in multiset(Query(rows, col, v));
  }

  lemma {:induction false} WhereConcat(a: seq<CaseExtraction>, b: seq<CaseExtraction>, col: Column, v: string)
    ensures Where(a + b, col, v) == Where(a, col, v) + Where(b, col, v)
  {
    if a == [] {
      assert a + b == b;
    } else {
      assert (a + b)[1..] == a[1..] + b;
      WhereConcat(a[1..], b, col, v);
    }
  }

  /** After a batch of one case's extractions, reading that case back gives
      the rows it had followed by the whole batch, in batch order before
      the sort by `EXTRACTED_AT`. */
  lemma {:induction false} BatchReadBack(rows: seq<CaseExtraction>, batch: seq<CaseExtraction>, caseId: string)
    requires forall i :: 0 <= i < |batch| ==> batch[i].caseId == caseId
    ensures Where(rows + batch, CaseIdColumn, caseId) == Where(rows, CaseIdColumn, caseId) + batch
  {
    WhereConcat(rows, batch, CaseIdColumn, caseId);
    AllOfCase(batch, caseId);
  }

  /** A case id no row carries selects nothing. */
  lemma {:induction false} NoneOfCase(rows: seq<CaseExtraction>, caseId: string)
    requires forall i :: 0 <= i < |rows| ==> rows[i].caseId != caseId
    ensures Where(rows, CaseIdColumn, caseId) == []
  {
    if rows != [] {
      NoneOfCase(rows[1..], caseId);
    }
  }

  lemma {:induction false} AllOfCase(batch: seq<CaseExtraction>, caseId: string)
    requires forall i :: 0 <= i < |batch| ==> batch[i].caseId == caseId
    ensures Where(batch, CaseIdColumn, caseId) == batch
  {
    if batch != [] {
      AllOfCase(batch[1..], caseId);
    }
  }
}
