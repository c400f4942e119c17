// The entities and models of the ingestion pipeline, as values. Timestamps
// (`DateTime`) are integers supplied by the caller; the clock itself is not
// part of this model.
module Domain {
  import opened Wrappers
  import FieldMaps

  /** An audit record as decoded from the Kafka payload. `privilegeUsed` is
      the only field declared nullable. */
  datatype AuditMessage = AuditMessage(
    id: string,
    target: string,
    sessionId: int,
    entryId: int,
    statement: int,
    dbUser: string,
    userHost: string,
    terminal: string,
    action: int,
    returnCode: int,
    owner: string,
    name: string,
    authPrivileges: string,
    authGrantee: string,
    newOwner: string,
    newName: string,
    osUser: string,
    privilegeUsed: Option<string>,
    timestamp: int,
    bindVariables: string,
    sqlText: string,
    producedAt: int)

  /** One extraction rule: take `sourceField` of a message and apply `regexPattern`. */
  datatype ExtractionRule = ExtractionRule(
    id: string,
    targetId: string,
    targetName: string,
    ruleName: string,
    sourceField: string,
    regexPattern: string,
    isRequired: bool,
    isActive: bool,
    ruleOrder: int)

  /** The sort key of `ORDER BY RULE_ORDER` and `OrderBy(r => r.RuleOrder)`. */
  function RuleOrderKey(r: ExtractionRule): int {
    r.ruleOrder
  }

  /** One value extracted by one rule, with the rule it came from. */
  datatype ExtractedValue = ExtractedValue(
    ruleId: string,
    ruleName: string,
    regexPattern: string,
    sourceField: string,
    value: string)

  /** The rule engine's result: a header copied from the message and the
      rule-name to value dictionary. */
  datatype ExtractedData = ExtractedData(
    auditRecordId: string,
    schema: string,
    tableName: string,
    sqlText: string,
    extractedFields: FieldMaps.FieldMap,
    processedAt: int)

  datatype Case = Case(
    id: string,
    auditLogId: string,
    caseStatus: string,
    valid: Option<string>,
    createdAt: int,
    updatedAt: int,
    resolvedAt: Option<int>,
    resolvedBy: Option<string>,
    resolutionNotes: Option<string>)

  datatype CaseExtraction = CaseExtraction(
    id: string,
    caseId: string,
    auditLogId: string,
    ruleId: string,
    ruleName: string,
    regexPattern: string,
    sourceField: string,
    fieldValue: Option<string>,
    extractedAt: int)

  /** The sort key of `ORDER BY EXTRACTED_AT`. */
  function ExtractedAtKey(x: CaseExtraction): int {
    x.extractedAt
  }

  datatype Target = Target(
    id: string,
    name: string,
    description: Option<string>,
    createdAt: int,
    updatedAt: int)

  /** A successful regex match: its whole text and the texts of its capturing
      groups 1, 2, ... (group 0, the whole match, is `value`). A pattern
      "has a group" exactly when its matches carry a non-empty `groups`,
      which is .NET's `Groups.Count > 1`. */
  datatype Match = Match(value: string, groups: seq<string>)

  /** What running a pattern over an input gives: the pattern does not
      compile, the match timed out, or the matches from left to right. */
  datatype RegexOutcome = Invalid | Timeout | Ok(matches: seq<Match>)

  /** The regular-expression engine, as an uninterpreted function of the
      pattern and the input. */
  type RegexOracle = (string, string) -> RegexOutcome
}
