// The Oracle schema the repositories work on, as in-memory tables, and the
// database object the repositories share. Connection handling, SQL text and
// column sizes are not part of this model; only each statement's effect on
// the tables is.
module Store {
  import opened Domain

  /** A row of `audit_logs`: the message columns, the Kafka coordinates of
      the delivery that last wrote it, and `PROCESS_COUNTER`. */
  datatype AuditRow = AuditRow(message: AuditMessage, partition: int, offset: int, processCounter: nat)

  /** A row of `audit_log_extracted_values`. The generated row id and the
      extraction timestamp are not modelled. */
  datatype ValueRow = ValueRow(auditMessageId: string, fieldName: string, fieldValue: string)

  /** A row of `target_rules`. */
  datatype RuleRow = RuleRow(
    id: string,
    targetId: string,
    ruleName: string,
    sourceField: string,
    regexPattern: string,
    isRequired: bool,
    isActive: bool,
    ruleOrder: int)

  /** The store calls the services make, in the order the trace records them. */
  datatype StoreCall =
    | TargetExists | SaveMessage | SaveValues | LoadRules
    | CaseExists | CreateCase | CreateBatch

  /** Why a store call throws: the database cannot be reached, a unique key
      or a foreign key is violated, or a single-row query found several. */
  datatype StoreError = Unavailable | UniqueViolation | ForeignKeyViolation | MultipleRows

  /** `audit_logs` is keyed by `ID`, so it is a map; the other tables are
      sequences in storage order. */
  datatype Tables = Tables(
    auditLogs: map<string, AuditRow>,
    extractedValues: seq<ValueRow>,
    targets: seq<Target>,
    rules: seq<RuleRow>,
    cases: seq<Case>,
    caseExtractions: seq<CaseExtraction>)

  /** The database all repositories write to. */
  class Database {
    var tables: Tables

    constructor(initial: Tables)
      ensures tables == initial
    {
      tables := initial;
    }
  }

  /** The row stored under an id carries a message with that id. */
  ghost predicate KeyedById(logs: map<string, AuditRow>) {
    forall id :: id in logs ==> logs[id].message.id == id
  }

  /** `UK_AUDIT_OFFSET`: no two rows share a (partition, offset) pair. */
  ghost predicate UniqueOffsets(logs: map<string, AuditRow>) {
    forall a, b :: a in logs && b in logs && a != b ==>
      (logs[a].partition, logs[a].offset) != (logs[b].partition, logs[b].offset)
  }

  /** `FK_AUDIT_MESSAGE`: every extracted value belongs to a stored message. */
  ghost predicate ValuesReferenceLogs(t: Tables) {
    forall i :: 0 <= i < |t.extractedValues| ==> t.extractedValues[i].auditMessageId in t.auditLogs
  }

  /** The `NAME` column of `targets` is unique. */
  ghost predicate UniqueTargetNames(targets: seq<Target>) {
    forall i, j :: 0 <= i < j < |targets| ==> targets[i].name != targets[j].name
  }

  /** The constraints the schema declares, which every write must keep. */
  ghost predicate ValidTables(t: Tables) {
    KeyedById(t.auditLogs) && UniqueOffsets(t.auditLogs) && ValuesReferenceLogs(t)
    && UniqueTargetNames(t.targets)
  }
}
