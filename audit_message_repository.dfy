// `AuditMessageRepository`: the MERGE upsert of a message into `audit_logs`
// keyed by `ID`, which bumps `PROCESS_COUNTER` on every redelivery, and the
// existence query.
module AuditMessageRepository {
  import opened Wrappers
  import opened Domain
  import opened Store

  /** `PROCESS_COUNTER` of the row stored under `id`, 0 when there is none. */
  function Counter(logs: map<string, AuditRow>, id: string): nat {
    if id in logs then logs[id].processCounter else 0
  }

  /** A row with another id already holds the pair (`p`, `o`). */
  predicate OffsetTaken(logs: map<string, AuditRow>, id: string, p: int, o: int) {
    exists other | other in logs :: other != id && logs[other].partition == p && logs[other].offset == o
  }

  /** The MERGE statement: update the row of `m.id` (counter + 1) or insert
      it (counter 1), rejected when the pair (`p`, `o`) would then appear
      twice. */
  function Merge(logs: map<string, AuditRow>, m: AuditMessage, p: int, o: int): (r: Result<map<string, AuditRow>, StoreError>)
    ensures r.Failure? <==> OffsetTaken(logs, m.id, p, o)
    ensures r.Failure? ==> r.error == UniqueViolation
    ensures r.Success? ==> r.value.Keys == logs.Keys + {m.id}
    ensures r.Success? ==> r.value[m.id] == AuditRow(m, p, o, Counter(logs, m.id) + 1)
    ensures r.Success? ==> forall id :: id in logs && id != m.id ==> r.value[id] == logs[id]
  {
    if OffsetTaken(logs, m.id, p, o) then Failure(UniqueViolation)
    else Success(logs[m.id := AuditRow(m, p, o, Counter(logs, m.id) + 1)])
  }

  /** `SaveAsync` on the whole schema; a call whose connection fails throws
      before the statement runs. */
  function SaveTables(t: Tables, m: AuditMessage, p: int, o: int, fault: bool): (r: Result<Tables, StoreError>)
  {
    if fault then Failure(Unavailable)
    else match Merge(t.auditLogs, m, p, o)
      case Failure(e) => Failure(e)
      case Success(logs) => Success(t.(auditLogs := logs))
  }

  method Save(db: Database, m: AuditMessage, p: int, o: int, fault: bool) returns (r: Outcome<StoreError>)
    modifies db
    ensures SaveTables(old(db.tables), m, p, o, fault).Failure? ==>
      r == Fail(SaveTables(old(db.tables), m, p, o, fault).error) && db.tables == old(db.tables)
    ensures SaveTables(old(db.tables), m, p, o, fault).Success? ==>
      r == Pass && db.tables == SaveTables(old(db.tables), m, p, o, fault).value
  {
    if fault {
      return Fail(Unavailable);
    }
    var merged := Merge(db.tables.auditLogs, m, p, o);
    if merged.Failure? {
      return Fail(merged.error);
    }
    db.tables := db.tables.(auditLogs := merged.value);
    r := Pass;
  }

  /** `IsProcessedAsync`: `COUNT(1)` over the primary key is positive. */
  function IsProcessed(logs: map<string, AuditRow>, id: string): bool {
    id in logs
  }

  /** A successful save makes its id processed and leaves every id that
      was processed processed. */
  lemma SaveMarksProcessed(logs: map<string, AuditRow>, m: AuditMessage, p: int, o: int, id: string)
    requires Merge(logs, m, p, o).Success?
    ensures IsProcessed(Merge(logs, m, p, o).value, m.id)
    ensures IsProcessed(logs, id) ==> IsProcessed(Merge(logs, m, p, o).value, id)
    ensures id != m.id ==> IsProcessed(Merge(logs, m, p, o).value, id) == IsProcessed(logs, id)
  {
  }

  /** `n` saves of the same message in a row. */
  function SaveTimes(logs: map<string, AuditRow>, m: AuditMessage, p: int, o: int, n: nat): Result<map<string, AuditRow>, StoreError>
    decreases n
  {
    if n == 0 then Success(logs)
    else match Merge(logs, m, p, o)
      case Failure(e) => Failure(e)
      case Success(next) => SaveTimes(next, m, p, o, n - 1)
  }

  /** Saving the same message `n` times leaves one row for its id whose
      counter went up by `n` (so is `n` for a new id), and leaves the other
      rows alone. */
  lemma {:induction false} RepeatedSaveCounts(logs: map<string, AuditRow>, m: AuditMessage, p: int, o: int, n: nat)
    requires !OffsetTaken(logs, m.id, p, o)
    requires n > 0
    ensures SaveTimes(logs, m, p, o, n).Success?
    ensures SaveTimes(logs, m, p, o, n).value.Keys == logs.Keys + {m.id}
    ensures SaveTimes(logs, m, p, o, n).value[m.id] == AuditRow(m, p, o, Counter(logs, m.id) + n)
    ensures forall id :: id in logs && id != m.id ==> SaveTimes(logs, m, p, o, n).value[id] == logs[id]
    decreases n
  {
    var next := Merge(logs, m, p, o).value;
    if n > 1 {
      assert !OffsetTaken(next, m.id, p, o) by {
        forall other | other in next && other != m.id
          ensures !(next[other].partition == p && next[other].offset == o)
        {
          assert next[other] == logs[other];
        }
      }
      RepeatedSaveCounts(next, m, p, o, n - 1);
    }
  }

  /** A successful save keeps `audit_logs` keyed by message id and keeps
      the (partition, offset) pairs unique. */
  lemma MergeKeepsConstraints(logs: map<string, AuditRow>, m: AuditMessage, p: int, o: int)
    requires KeyedById(logs) && UniqueOffsets(logs)
    requires Merge(logs, m, p, o).Success?
    ensures KeyedById(Merge(logs, m, p, o).value)
    ensures UniqueOffsets(Merge(logs, m, p, o).value)
  {
    var next := Merge(logs, m, p, o).value;
    forall a, b | a in next && b in next && a != b
      ensures (next[a].partition, next[a].offset) != (next[b].partition, next[b].offset)
    {
      if a != m.id && b != m.id {
        assert next[a] == logs[a] && next[b] == logs[b];
      } else if a == m.id {
        assert next[b] == logs[b];
      } else {
        assert next[a] == logs[a];
      }
    }
  }
}
