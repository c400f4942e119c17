// `CaseRepository`: insert a case, and the three read-only queries over
// the `cases` table.
module CaseRepository {
  import opened Wrappers
  import opened Domain
  import opened Store

  /** `CreateAsync`: insert exactly `c`'s fields and return its id. */
  method Create(db: Database, c: Case, fault: bool) returns (r: Result<string, StoreError>)
    modifies db
    ensures fault ==> r == Failure(Unavailable) && db.tables == old(db.tables)
    ensures !fault ==> r == Success(c.id) && db.tables == old(db.tables).(cases := old(db.tables.cases) + [c])
  {
    if fault {
      return Failure(Unavailable);
    }
    db.tables := db.tables.(cases := db.tables.cases + [c]);
    r := Success(c.id);
  }

  /** `SELECT COUNT(1) FROM cases WHERE AUDIT_LOG_ID = :AuditLogId`. */
  function CountForAuditLog(cases: seq<Case>, auditLogId: string): nat {
    if cases == [] then 0
    else CountForAuditLog(cases[..|cases| - 1], auditLogId) + (if cases[|cases| - 1].auditLogId == auditLogId then 1 else 0)
  }

  /** `ExistsForAuditLogAsync`. */
  function ExistsForAuditLog(cases: seq<Case>, auditLogId: string): bool {
    CountForAuditLog(cases, auditLogId) > 0
  }

  /** `GetByIdAsync`: the first case with that id, or null. */
  function GetById(cases: seq<Case>, id: string): (r: Option<Case>)
    ensures r.Some? ==> r.value in cases && r.value.id == id
    ensures r.None? <==> forall i :: 0 <= i < |cases| ==> cases[i].id != id
  {
    if cases == [] then None
    else if cases[0].id == id then Some(cases[0])
    else GetById(cases[1..], id)
  }

  /** `GetByAuditLogIdAsync`: a case of that audit log, or null. The query
      has no ORDER BY, so the model fixes one choice, the first in table
      order; `OnlyCaseOfAuditLog` shows the choice does not matter while at
      most one case per audit log is stored. */
  function GetByAuditLogId(cases: seq<Case>, auditLogId: string): (r: Option<Case>)
    ensures r.Some? ==> exists i :: (0 <= i < |cases| && cases[i] == r.value
      && r.value.auditLogId == auditLogId
      && forall j :: 0 <= j < i ==> cases[j].auditLogId != auditLogId)
    ensures r.None? <==> forall i :: 0 <= i < |cases| ==> cases[i].auditLogId != auditLogId
  {
    if cases == [] then None
    else if cases[0].auditLogId == auditLogId then Some(cases[0])
    else
      var r := GetByAuditLogId(cases[1..], auditLogId);
      if r.Some? then
        var i :| 0 <= i < |cases[1..]| && cases[1..][i] == r.value && r.value.auditLogId == auditLogId
          && forall j :: 0 <= j < i ==> cases[1..][j].auditLogId != auditLogId;
        assert cases[i + 1] == r.value;
        assert forall j :: 0 <= j < i + 1 ==> cases[j].auditLogId != auditLogId by {
          forall j | 0 <= j < i + 1 ensures cases[j].auditLogId != auditLogId {
            if j > 0 {
              assert cases[j] == cases[1..][j - 1];
            }
          }
        }
        r
      else r
  }

  /** At most one case per audit log. */
  ghost predicate OneCasePerAuditLog(cases: seq<Case>) {
    forall i, j :: 0 <= i < j < |cases| ==> cases[i].auditLogId != cases[j].auditLogId
  }

  /** With at most one case per audit log, the lookup returns the one
      case of that audit log, whichever row the database would pick. */
  lemma OnlyCaseOfAuditLog(cases: seq<Case>, auditLogId: string, k: nat)
    requires OneCasePerAuditLog(cases)
    requires k < |cases| && cases[k].auditLogId == auditLogId
    ensures GetByAuditLogId(cases, auditLogId) == Some(cases[k])
  {
    var r := GetByAuditLogId(cases, auditLogId);
    var i :| 0 <= i < |cases| && cases[i] == r.value && r.value.auditLogId == auditLogId
      && forall j :: 0 <= j < i ==> cases[j].auditLogId != auditLogId;
  }

  /** The existence count is positive exactly when the lookup by audit log
      finds a case. */
  lemma {:induction false} ExistsAgreesWithGet(cases: seq<Case>, auditLogId: string)
    ensures ExistsForAuditLog(cases, auditLogId) <==> GetByAuditLogId(cases, auditLogId).Some?
  {
    if cases != [] {
      var init := cases[..|cases| - 1];
      ExistsAgreesWithGet(init, auditLogId);
      if GetByAuditLogId(init, auditLogId).Some? {
        var i :| 0 <= i < |init| && init[i].auditLogId == auditLogId;
        assert cases[i] == init[i];
      } else {
        assert forall i :: 0 <= i < |init| ==> cases[i] == init[i];
      }
    }
  }

  /** Inserting a case adds one to the count of its audit log only. */
  lemma CountAfterCreate(cases: seq<Case>, c: Case, auditLogId: string)
    ensures CountForAuditLog(cases + [c], auditLogId) ==
      CountForAuditLog(cases, auditLogId) + (if c.auditLogId == auditLogId then 1 else 0)
  {
    assert (cases + [c])[..|cases|] == cases;
  }

  /** Appending a case changes a lookup by id only when no earlier case
      has that id. */
  lemma {:induction false} GetByIdAfterCreate(cases: seq<Case>, c: Case, id: string)
    ensures GetById(cases + [c], id) ==
      if GetById(cases, id).Some? then GetById(cases, id) else if c.id == id then Some(c) else None
  {
    if cases == [] {
      assert cases + [c] == [c];
    } else {
      assert (cases + [c])[1..] == cases[1..] + [c];
      GetByIdAfterCreate(cases[1..], c, id);
    }
  }

  /** After `CreateAsync(c)`, `ExistsForAuditLogAsync(c.AuditLogId)` holds
      and, when the id was new, `GetByIdAsync(c.Id)` returns `c`. */
  lemma CreateThenFind(cases: seq<Case>, c: Case)
    ensures ExistsForAuditLog(cases + [c], c.auditLogId)
    ensures GetById(cases, c.id).None? ==> GetById(cases + [c], c.id) == Some(c)
  {
    CountAfterCreate(cases, c, c.auditLogId);
    GetByIdAfterCreate(cases, c, c.id);
  }

  /** Inserting a case for an audit log that has none keeps at most one case
      per audit log. */
  lemma {:induction false} CreateKeepsOneCasePerAuditLog(cases: seq<Case>, c: Case)
    requires OneCasePerAuditLog(cases)
    requires !ExistsForAuditLog(cases, c.auditLogId)
    ensures OneCasePerAuditLog(cases + [c])
  {
    ExistsAgreesWithGet(cases, c.auditLogId);
    var s := cases + [c];
    forall i, j | 0 <= i < j < |s| ensures s[i].auditLogId != s[j].auditLogId {
      if j == |cases| {
        assert s[i] == cases[i];
      } else {
        assert s[i] == cases[i] && s[j] == cases[j];
      }
    }
  }
}
