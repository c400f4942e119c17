// `AuditConsumerBackgroundService.ExecuteAsync`: the consume loop. Each
// delivery is decoded, given an id when it has none, dropped (but
// committed) when its target is blank or unknown, otherwise upserted,
// matched against its target's rules and, when anything was extracted,
// turned into a case; the offset is committed last. Any exception skips the
// commit, so the record's offset is not committed. Whether the record is
// handed out again is up to Kafka (a later commit on the partition moves
// past it); the model lets the environment deliver any record, again or
// not, in any order.
module Consumer {
  import opened Wrappers
  import opened Domain
  import opened Store
  import opened Text
  import opened Guids
  import TargetRepository
  import AuditMessageRepository
  import RuleRepository
  import ExtractionService
  import CaseRepository
  import CaseService

  /** A record as `Consume` returns it; a null message value is `None`. */
  datatype ConsumeRecord = ConsumeRecord(partition: int, offset: int, payload: Option<string>)

  /** What `Consume` does: throw `OperationCanceledException`, throw
      `ObjectDisposedException`, throw anything else, or return a result
      (null when nothing arrived). */
  datatype Poll = Cancelled | Disposed | Failed | Consumed(result: Option<ConsumeRecord>)

  /** One turn of the loop as the environment plays it: what `Consume`
      gives, which store calls throw, whether `Commit` throws, and the
      clock. */
  datatype Delivery = Delivery(poll: Poll, faults: set<StoreCall>, commitFault: bool, now: int)

  /** `JsonSerializer.Deserialize`: a message, null, or a `JsonException`. */
  datatype Decoded = Message(message: AuditMessage) | NullMessage | JsonError

  type Decoder = string -> Decoded

  /** What the loop does to the outside world: a store call, or a commit of
      a record's position. */
  datatype Event = Call(call: StoreCall) | Commit(partition: int, offset: int)

  /** Why a record was committed. */
  datatype Reason = NoTarget | UnknownTarget | NoRules | Processed(caseId: Option<string>)

  /** How one turn ends: the loop exits, the record is skipped without a
      commit, the record is committed, or an exception was caught and the
      offset is not committed. */
  datatype StepOutcome = Stop | Ignored | Committed(reason: Reason) | Retry

  datatype StepResult = StepResult(outcome: StepOutcome, tables: Tables, nextGuid: nat, events: seq<Event>)

  // ---------------------------------------------------------------------
  // The synthesised id
  // ---------------------------------------------------------------------

  /** `$"{SessionId}_{EntryId}_{Statement}"`. */
  function SynthesisedId(m: AuditMessage): string {
    IntToString(m.sessionId) + "_" + IntToString(m.entryId) + "_" + IntToString(m.statement)
  }

  /** Replace an empty `Id` by the synthesised one. */
  function EnsureId(m: AuditMessage): AuditMessage {
    if m.id == "" then m.(id := SynthesisedId(m)) else m
  }

  /** The id is never empty afterwards, a present id is kept, and nothing
      but the id changes. */
  lemma EnsureIdSpec(m: AuditMessage)
    ensures EnsureId(m).id != ""
    ensures m.id != "" ==> EnsureId(m) == m
    ensures m.id == "" ==> EnsureId(m).id == SynthesisedId(m)
    ensures EnsureId(m) == m.(id := EnsureId(m).id)
  {
    if m.id == "" {
      assert |SynthesisedId(m)| > 0;
    }
  }

  /** The position of the first '_', or the length when there is none. */
  function UnderscoreAt(s: string): (n: nat)
    ensures n <= |s|
  {
    if s == [] then 0 else if s[0] == '_' then 0 else 1 + UnderscoreAt(s[1..])
  }

  lemma {:induction false} UnderscoreAfter(x: string, rest: string)
    requires forall k :: 0 <= k < |x| ==> x[k] != '_'
    ensures UnderscoreAt(x + "_" + rest) == |x|
  {
    if x != [] {
      assert (x + "_" + rest)[1..] == x[1..] + "_" + rest;
      UnderscoreAfter(x[1..], rest);
    }
  }

  /** Splitting at the first '_' is unambiguous when the head has none. */
  lemma SplitAtUnderscore(x: string, rest: string, y: string, rest2: string)
    requires forall k :: 0 <= k < |x| ==> x[k] != '_'
    requires forall k :: 0 <= k < |y| ==> y[k] != '_'
    requires x + "_" + rest == y + "_" + rest2
    ensures x == y && rest == rest2
  {
    var s := x + "_" + rest;
    UnderscoreAfter(x, rest);
    UnderscoreAfter(y, rest2);
    assert x == s[..|x|];
    assert y == s[..|y|];
    assert rest == s[|x| + 1..];
    assert rest2 == s[|y| + 1..];
  }

  /** Synthesised ids tell messages apart: equal ids mean equal session,
      entry and statement numbers. */
  lemma SynthesisedIdInjective(a: AuditMessage, b: AuditMessage)
    requires SynthesisedId(a) == SynthesisedId(b)
    ensures a.sessionId == b.sessionId && a.entryId == b.entryId && a.statement == b.statement
  {
    var sa, ea, ta := IntToString(a.sessionId), IntToString(a.entryId), IntToString(a.statement);
    var sb, eb, tb := IntToString(b.sessionId), IntToString(b.entryId), IntToString(b.statement);
    assert sa + "_" + ea + "_" + ta == sa + "_" + (ea + "_" + ta);
    assert sb + "_" + eb + "_" + tb == sb + "_" + (eb + "_" + tb);
    SplitAtUnderscore(sa, ea + "_" + ta, sb, eb + "_" + tb);
    SplitAtUnderscore(ea, ta, eb, tb);
    IntToStringInjective(a.sessionId, b.sessionId);
    IntToStringInjective(a.entryId, b.entryId);
    IntToStringInjective(a.statement, b.statement);
  }

  // ---------------------------------------------------------------------
  // One turn of the loop, as a value
  // ---------------------------------------------------------------------

  function CallEvents(calls: seq<StoreCall>): (r: seq<Event>)
    ensures |r| == |calls|
    ensures forall i :: 0 <= i < |calls| ==> r[i] == Call(calls[i])
  {
    if calls == [] then [] else [Call(calls[0])] + CallEvents(calls[1..])
  }

  /** `_kafkaConsumer.Commit(consumeResult)` as the last action of a turn;
      a commit that throws is caught like any other exception. */
  function Finish(reason: Reason, rec: ConsumeRecord, t: Tables, g: nat, events: seq<Event>, commitFault: bool): StepResult {
    if commitFault then StepResult(Retry, t, g, events)
    else StepResult(Committed(reason), t, g, events + [Commit(rec.partition, rec.offset)])
  }

  lemma AppendAssoc(a: seq<Event>, b: seq<Event>, c: seq<Event>)
    ensures a + b + c == a + (b + c)
  {
  }

  /** `events` happened before the rest of the turn `s`. */
  function Prepend(events: seq<Event>, s: StepResult): StepResult {
    s.(events := events + s.events)
  }

  /** The turn for a decoded message whose id is set. */
  function Handle(t: Tables, g: nat, rec: ConsumeRecord, m: AuditMessage, d: Delivery, regex: RegexOracle): StepResult {
    if IsBlank(m.target) then Finish(NoTarget, rec, t, g, [], d.commitFault)
    else if TargetExists in d.faults then StepResult(Retry, t, g, [Call(TargetExists)])
    else if !TargetRepository.Exists(t.targets, m.target) then
      Finish(UnknownTarget, rec, t, g, [Call(TargetExists)], d.commitFault)
    else Prepend([Call(TargetExists)], SaveStage(t, g, rec, m, d, regex))
  }

  /** Step 1: the upsert of the message. */
  function SaveStage(t: Tables, g: nat, rec: ConsumeRecord, m: AuditMessage, d: Delivery, regex: RegexOracle): StepResult {
    match AuditMessageRepository.SaveTables(t, m, rec.partition, rec.offset, SaveMessage in d.faults)
    case Failure(_) => StepResult(Retry, t, g, [Call(SaveMessage)])
    case Success(t1) => Prepend([Call(SaveMessage)], RulesStage(t1, g, rec, m, d, regex))
  }

  /** Step 2: the rule load. */
  function RulesStage(t: Tables, g: nat, rec: ConsumeRecord, m: AuditMessage, d: Delivery, regex: RegexOracle): StepResult {
    if LoadRules in d.faults then StepResult(Retry, t, g, [Call(LoadRules)])
    else Prepend([Call(LoadRules)], ExtractStage(t, g, rec, m, d, RuleRepository.GetRulesByTarget(t, m.target), regex))
  }

  /** Step 3: the extraction, skipped (with a commit) when there are no rules. */
  function ExtractStage(t: Tables, g: nat, rec: ConsumeRecord, m: AuditMessage, d: Delivery, rules: seq<ExtractionRule>, regex: RegexOracle): StepResult {
    if |rules| == 0 then Finish(NoRules, rec, t, g, [], d.commitFault)
    else CaseStage(t, g, rec, m, d, ExtractionService.Extraction(m, rules, regex))
  }

  /** Step 4: a case, only when something was extracted; then the commit. */
  function CaseStage(t: Tables, g: nat, rec: ConsumeRecord, m: AuditMessage, d: Delivery, values: seq<ExtractedValue>): StepResult {
    if |values| == 0 then Finish(Processed(None), rec, t, g, [], d.commitFault)
    else AfterCase(CaseService.CreateCaseSpec(t, g, m, values, d.now, d.faults), rec, d.commitFault)
  }

  function AfterCase(c: CaseService.CaseCreation, rec: ConsumeRecord, commitFault: bool): StepResult {
    if c.result.Failure? then StepResult(Retry, c.tables, c.nextGuid, CallEvents(c.calls))
    else Finish(Processed(c.result.value), rec, c.tables, c.nextGuid, CallEvents(c.calls), commitFault)
  }

  /** One turn of the `while` loop. */
  function Step(t: Tables, g: nat, d: Delivery, decode: Decoder, regex: RegexOracle): StepResult {
    match d.poll
    case Cancelled => StepResult(Stop, t, g, [])
    case Disposed => StepResult(Stop, t, g, [])
    case Failed => StepResult(Retry, t, g, [])
    case Consumed(r) =>
      if r.None? || r.value.payload.None? then StepResult(Ignored, t, g, [])
      else match decode(r.value.payload.value)
        case JsonError => StepResult(Retry, t, g, [])
        case NullMessage => StepResult(Ignored, t, g, [])
        case Message(m) => Handle(t, g, r.value, EnsureId(m), d, regex)
  }

  /** The decoded message of a delivery, when it has one. */
  predicate Decodes(d: Delivery, decode: Decoder, m: AuditMessage) {
    d.poll.Consumed? && d.poll.result.Some? && d.poll.result.value.payload.Some?
    && decode(d.poll.result.value.payload.value) == Message(m)
  }

  // ---------------------------------------------------------------------
  // Properties of each stage
  // ---------------------------------------------------------------------

  /** A turn's events: store calls, then at most one commit, which is the
      last event, is for `rec`, and happens exactly when the turn ends
      `Committed`. */
  predicate Shaped(s: StepResult, rec: ConsumeRecord) {
    && (forall i :: 0 <= i < |s.events| - 1 ==> s.events[i].Call?)
    && (s.outcome.Committed? <==> (|s.events| > 0 && s.events[|s.events| - 1].Commit?))
    && (s.outcome.Committed? ==> s.events[|s.events| - 1] == Commit(rec.partition, rec.offset))
  }

  /** The later stages write only the case tables. */
  predicate OnlyCasesChanged(t: Tables, u: Tables) {
    u.auditLogs == t.auditLogs && u.extractedValues == t.extractedValues && u.targets == t.targets && u.rules == t.rules
  }

  /** The schema's constraints, and at most one case per audit log. */
  ghost predicate ConsumerInvariant(t: Tables) {
    ValidTables(t) && CaseRepository.OneCasePerAuditLog(t.cases)
  }

  lemma FinishShaped(reason: Reason, rec: ConsumeRecord, t: Tables, g: nat, events: seq<Event>, commitFault: bool)
    requires forall i :: 0 <= i < |events| ==> events[i].Call?
    ensures Shaped(Finish(reason, rec, t, g, events, commitFault), rec)
  {
  }

  lemma PrependShaped(events: seq<Event>, s: StepResult, rec: ConsumeRecord)
    requires forall i :: 0 <= i < |events| ==> events[i].Call?
    requires Shaped(s, rec)
    ensures Shaped(Prepend(events, s), rec)
  {
    var e := events + s.events;
    forall i | 0 <= i < |e| - 1 ensures e[i].Call? {
      if i >= |events| {
        assert e[i] == s.events[i - |events|];
      }
    }
  }

  lemma {:induction false} CaseStageFacts(t: Tables, g: nat, rec: ConsumeRecord, m: AuditMessage, d: Delivery, values: seq<ExtractedValue>)
    ensures var s := CaseStage(t, g, rec, m, d, values);
      && Shaped(s, rec)
      && OnlyCasesChanged(t, s.tables)
      && (Call(CaseExists) in s.events <==> |values| > 0)
      && (|values| == 0 ==> s.tables == t && s.nextGuid == g)
      && !s.outcome.Stop?
  {
    if |values| == 0 {
      FinishShaped(Processed(None), rec, t, g, [], d.commitFault);
    } else {
      var c := CaseService.CreateCaseSpec(t, g, m, values, d.now, d.faults);
      CaseService.CallOrder(t, g, m, values, d.now, d.faults);
      var events := CallEvents(c.calls);
      assert events[0] == Call(CaseExists);
      if c.result.Success? {
        FinishShaped(Processed(c.result.value), rec, c.tables, c.nextGuid, events, d.commitFault);
      }
    }
  }

  lemma CaseStageKeepsInvariant(t: Tables, g: nat, rec: ConsumeRecord, m: AuditMessage, d: Delivery, values: seq<ExtractedValue>)
    requires ConsumerInvariant(t)
    ensures ConsumerInvariant(CaseStage(t, g, rec, m, d, values).tables)
  {
    if |values| > 0 {
      CaseService.KeepsOneCasePerAuditLog(t, g, m, values, d.now, d.faults);
    }
  }

  lemma ExtractStageFacts(t: Tables, g: nat, rec: ConsumeRecord, m: AuditMessage, d: Delivery, rules: seq<ExtractionRule>, regex: RegexOracle)
    ensures var s := ExtractStage(t, g, rec, m, d, rules, regex);
      && Shaped(s, rec)
      && OnlyCasesChanged(t, s.tables)
      && (Call(CaseExists) in s.events <==> |rules| > 0 && |ExtractionService.Extraction(m, rules, regex)| > 0)
      && (Call(CaseExists) !in s.events ==> s.tables == t && s.nextGuid == g)
      && !s.outcome.Stop?
  {
    if |rules| == 0 {
      FinishShaped(NoRules, rec, t, g, [], d.commitFault);
    } else {
      CaseStageFacts(t, g, rec, m, d, ExtractionService.Extraction(m, rules, regex));
    }
  }

  lemma ExtractStageKeepsInvariant(t: Tables, g: nat, rec: ConsumeRecord, m: AuditMessage, d: Delivery, rules: seq<ExtractionRule>, regex: RegexOracle)
    requires ConsumerInvariant(t)
    ensures ConsumerInvariant(ExtractStage(t, g, rec, m, d, rules, regex).tables)
  {
    if |rules| > 0 {
      CaseStageKeepsInvariant(t, g, rec, m, d, ExtractionService.Extraction(m, rules, regex));
    }
  }

  lemma RulesStageFacts(t: Tables, g: nat, rec: ConsumeRecord, m: AuditMessage, d: Delivery, regex: RegexOracle)
    ensures var s := RulesStage(t, g, rec, m, d, regex);
      && Shaped(s, rec)
      && OnlyCasesChanged(t, s.tables)
      && (Call(CaseExists) in s.events ==>
            |ExtractionService.Extraction(m, RuleRepository.GetRulesByTarget(t, m.target), regex)| > 0)
      && (Call(CaseExists) !in s.events ==> s.tables == t && s.nextGuid == g)
      && !s.outcome.Stop?
  {
    var s := RulesStage(t, g, rec, m, d, regex);
    if LoadRules !in d.faults {
      var rules := RuleRepository.GetRulesByTarget(t, m.target);
      var rest := ExtractStage(t, g, rec, m, d, rules, regex);
      ExtractStageFacts(t, g, rec, m, d, rules, regex);
      PrependShaped([Call(LoadRules)], rest, rec);
      assert Call(CaseExists) in s.events <==> Call(CaseExists) in rest.events;
    }
  }

  lemma RulesStageKeepsInvariant(t: Tables, g: nat, rec: ConsumeRecord, m: AuditMessage, d: Delivery, regex: RegexOracle)
    requires ConsumerInvariant(t)
    ensures ConsumerInvariant(RulesStage(t, g, rec, m, d, regex).tables)
  {
    if LoadRules !in d.faults {
      ExtractStageKeepsInvariant(t, g, rec, m, d, RuleRepository.GetRulesByTarget(t, m.target), regex);
    }
  }

  lemma SaveStageFacts(t: Tables, g: nat, rec: ConsumeRecord, m: AuditMessage, d: Delivery, regex: RegexOracle)
    ensures var s := SaveStage(t, g, rec, m, d, regex);
      && Shaped(s, rec)
      && |s.events| > 0 && s.events[0] == Call(SaveMessage)
      && s.tables.targets == t.targets && s.tables.rules == t.rules
      && (Call(CaseExists) in s.events ==>
            |ExtractionService.Extraction(m, RuleRepository.GetRulesByTarget(t, m.target), regex)| > 0)
      && (Call(CaseExists) !in s.events ==>
            s.tables.cases == t.cases && s.tables.caseExtractions == t.caseExtractions && s.nextGuid == g)
      && (s.outcome.Committed? ==>
            AuditMessageRepository.SaveTables(t, m, rec.partition, rec.offset, SaveMessage in d.faults).Success?
            && s.tables.auditLogs == AuditMessageRepository.SaveTables(t, m, rec.partition, rec.offset, SaveMessage in d.faults).value.auditLogs)
      && !s.outcome.Stop?
  {
    var s := SaveStage(t, g, rec, m, d, regex);
    var saved := AuditMessageRepository.SaveTables(t, m, rec.partition, rec.offset, SaveMessage in d.faults);
    if saved.Success? {
      var t1 := saved.value;
      var rest := RulesStage(t1, g, rec, m, d, regex);
      RulesStageFacts(t1, g, rec, m, d, regex);
      PrependShaped([Call(SaveMessage)], rest, rec);
      assert Call(CaseExists) in s.events <==> Call(CaseExists) in rest.events;
      assert RuleRepository.GetRulesByTarget(t1, m.target) == RuleRepository.GetRulesByTarget(t, m.target);
    }
  }

  lemma SaveStageKeepsInvariant(t: Tables, g: nat, rec: ConsumeRecord, m: AuditMessage, d: Delivery, regex: RegexOracle)
    requires ConsumerInvariant(t)
    ensures ConsumerInvariant(SaveStage(t, g, rec, m, d, regex).tables)
  {
    var saved := AuditMessageRepository.SaveTables(t, m, rec.partition, rec.offset, SaveMessage in d.faults);
    if saved.Success? {
      AuditMessageRepository.MergeKeepsConstraints(t.auditLogs, m, rec.partition, rec.offset);
      assert ConsumerInvariant(saved.value);
      RulesStageKeepsInvariant(saved.value, g, rec, m, d, regex);
    }
  }

  lemma HandleFacts(t: Tables, g: nat, rec: ConsumeRecord, m: AuditMessage, d: Delivery, regex: RegexOracle)
    ensures var s := Handle(t, g, rec, m, d, regex);
      && Shaped(s, rec)
      && (Call(CaseExists) in s.events ==>
            |ExtractionService.Extraction(m, RuleRepository.GetRulesByTarget(t, m.target), regex)| > 0)
      && (Call(CaseExists) !in s.events ==>
            s.tables.cases == t.cases && s.tables.caseExtractions == t.caseExtractions && s.nextGuid == g)
      && !s.outcome.Stop?
  {
    var s := Handle(t, g, rec, m, d, regex);
    if IsBlank(m.target) {
      FinishShaped(NoTarget, rec, t, g, [], d.commitFault);
    } else if TargetExists in d.faults {
    } else if !TargetRepository.Exists(t.targets, m.target) {
      FinishShaped(UnknownTarget, rec, t, g, [Call(TargetExists)], d.commitFault);
    } else {
      var rest := SaveStage(t, g, rec, m, d, regex);
      SaveStageFacts(t, g, rec, m, d, regex);
      PrependShaped([Call(TargetExists)], rest, rec);
      assert Call(CaseExists) in s.events <==> Call(CaseExists) in rest.events;
    }
  }

  lemma HandleKeepsInvariant(t: Tables, g: nat, rec: ConsumeRecord, m: AuditMessage, d: Delivery, regex: RegexOracle)
    requires ConsumerInvariant(t)
    ensures ConsumerInvariant(Handle(t, g, rec, m, d, regex).tables)
  {
    if !IsBlank(m.target) && TargetExists !in d.faults && TargetRepository.Exists(t.targets, m.target) {
      SaveStageKeepsInvariant(t, g, rec, m, d, regex);
    }
  }

  // ---------------------------------------------------------------------
  // When a turn commits
  // ---------------------------------------------------------------------

  /** Some store call the turn reached threw. */
  predicate Hit(events: seq<Event>, faults: set<StoreCall>) {
    exists c :: c in faults && Call(c) in events
  }

  /** The turn's MERGE ran without a connection fault and was rejected by
      `UK_AUDIT_OFFSET`: another id holds the record's position. */
  predicate Rejected(s: StepResult, t: Tables, rec: ConsumeRecord, m: AuditMessage, d: Delivery) {
    Call(SaveMessage) in s.events && SaveMessage !in d.faults
    && AuditMessageRepository.OffsetTaken(t.auditLogs, m.id, rec.partition, rec.offset)
  }

  /** A turn for a decoded message ends either committed or caught, and it
      is caught exactly when a store call it reached threw, the commit
      threw, or the upsert was rejected. */
  predicate Settles(s: StepResult, d: Delivery, rejected: bool) {
    (s.outcome.Committed? || s.outcome.Retry?)
    && (s.outcome.Retry? <==> Hit(s.events, d.faults) || d.commitFault || rejected)
  }

  lemma FinishSettles(reason: Reason, rec: ConsumeRecord, t: Tables, g: nat, events: seq<Event>, d: Delivery)
    requires !Hit(events, d.faults)
    ensures Settles(Finish(reason, rec, t, g, events, d.commitFault), d, false)
  {
    var e := events + [Commit(rec.partition, rec.offset)];
    forall c | c in d.faults
      ensures Call(c) !in e
    {
      assert Call(c) !in events;
    }
  }

  lemma PrependSettles(events: seq<Event>, s: StepResult, d: Delivery, rejected: bool)
    requires !Hit(events, d.faults)
    requires Settles(s, d, rejected)
    ensures Settles(Prepend(events, s), d, rejected)
  {
    assert Hit(events + s.events, d.faults) <==> Hit(s.events, d.faults) by {
      forall c | c in d.faults
        ensures Call(c) in events + s.events <==> Call(c) in s.events
      {
        assert Call(c) !in events;
      }
    }
  }

  lemma CaseStageSettles(t: Tables, g: nat, rec: ConsumeRecord, m: AuditMessage, d: Delivery, values: seq<ExtractedValue>)
    ensures Settles(CaseStage(t, g, rec, m, d, values), d, false)
  {
    if |values| == 0 {
      FinishSettles(Processed(None), rec, t, g, [], d);
    } else {
      var c := CaseService.CreateCaseSpec(t, g, m, values, d.now, d.faults);
      var events := CallEvents(c.calls);
      if CaseExists in d.faults {
        assert events[0] == Call(CaseExists);
      } else if CaseRepository.ExistsForAuditLog(t.cases, m.id) {
        assert events == [Call(CaseExists)];
        FinishSettles(Processed(None), rec, c.tables, c.nextGuid, events, d);
      } else if CreateCase in d.faults {
        assert events[1] == Call(CreateCase);
      } else if CreateBatch in d.faults {
        assert events[2] == Call(CreateBatch);
      } else {
        assert events == [Call(CaseExists), Call(CreateCase), Call(CreateBatch)];
        FinishSettles(Processed(c.result.value), rec, c.tables, c.nextGuid, events, d);
      }
    }
  }

  lemma ExtractStageSettles(t: Tables, g: nat, rec: ConsumeRecord, m: AuditMessage, d: Delivery, rules: seq<ExtractionRule>, regex: RegexOracle)
    ensures Settles(ExtractStage(t, g, rec, m, d, rules, regex), d, false)
  {
    if |rules| == 0 {
      FinishSettles(NoRules, rec, t, g, [], d);
    } else {
      CaseStageSettles(t, g, rec, m, d, ExtractionService.Extraction(m, rules, regex));
    }
  }

  lemma RulesStageSettles(t: Tables, g: nat, rec: ConsumeRecord, m: AuditMessage, d: Delivery, regex: RegexOracle)
    ensures Settles(RulesStage(t, g, rec, m, d, regex), d, false)
  {
    if LoadRules in d.faults {
      assert Call(LoadRules) in RulesStage(t, g, rec, m, d, regex).events;
    } else {
      var rules := RuleRepository.GetRulesByTarget(t, m.target);
      ExtractStageSettles(t, g, rec, m, d, rules, regex);
      PrependSettles([Call(LoadRules)], ExtractStage(t, g, rec, m, d, rules, regex), d, false);
    }
  }

  lemma SaveStageSettles(t: Tables, g: nat, rec: ConsumeRecord, m: AuditMessage, d: Delivery, regex: RegexOracle)
    ensures var s := SaveStage(t, g, rec, m, d, regex);
      Settles(s, d, Rejected(s, t, rec, m, d))
  {
    var s := SaveStage(t, g, rec, m, d, regex);
    var saved := AuditMessageRepository.SaveTables(t, m, rec.partition, rec.offset, SaveMessage in d.faults);
    if saved.Failure? {
      assert s.events == [Call(SaveMessage)];
    } else {
      var rest := RulesStage(saved.value, g, rec, m, d, regex);
      RulesStageSettles(saved.value, g, rec, m, d, regex);
      PrependSettles([Call(SaveMessage)], rest, d, false);
      assert Call(SaveMessage) in s.events;
    }
  }

  lemma HandleSettles(t: Tables, g: nat, rec: ConsumeRecord, m: AuditMessage, d: Delivery, regex: RegexOracle)
    ensures var s := Handle(t, g, rec, m, d, regex);
      Settles(s, d, Rejected(s, t, rec, m, d))
  {
    var s := Handle(t, g, rec, m, d, regex);
    if IsBlank(m.target) {
      FinishSettles(NoTarget, rec, t, g, [], d);
      assert Call(SaveMessage) !in s.events;
    } else if TargetExists in d.faults {
      assert s.events == [Call(TargetExists)];
    } else if !TargetRepository.Exists(t.targets, m.target) {
      FinishSettles(UnknownTarget, rec, t, g, [Call(TargetExists)], d);
      assert Call(SaveMessage) !in s.events;
    } else {
      var rest := SaveStage(t, g, rec, m, d, regex);
      SaveStageSettles(t, g, rec, m, d, regex);
      PrependSettles([Call(TargetExists)], rest, d, Rejected(rest, t, rec, m, d));
      assert Call(SaveMessage) in s.events <==> Call(SaveMessage) in rest.events;
    }
  }

  /** No turn commits after a failure: a store call that threw, or a commit
      that threw, means the offset is not committed. */
  lemma FaultMeansNoCommit(t: Tables, g: nat, d: Delivery, decode: Decoder, regex: RegexOracle)
    ensures Hit(Step(t, g, d, decode, regex).events, d.faults) ==> Step(t, g, d, decode, regex).outcome.Retry?
    ensures d.commitFault ==> !Step(t, g, d, decode, regex).outcome.Committed?
  {
    if d.poll.Consumed? && d.poll.result.Some? && d.poll.result.value.payload.Some? {
      var rec := d.poll.result.value;
      var decoded := decode(rec.payload.value);
      if decoded.Message? {
        HandleSettles(t, g, rec, EnsureId(decoded.message), d, regex);
      }
    }
  }

  /** A decoded message is committed exactly when no store call it reached
      threw, the commit did not throw, and the upsert was not rejected;
      otherwise the turn ends in the `catch`. */
  lemma CommitUnlessFault(t: Tables, g: nat, d: Delivery, decode: Decoder, regex: RegexOracle, m: AuditMessage)
    requires Decodes(d, decode, m)
    ensures var s := Step(t, g, d, decode, regex);
      && (s.outcome.Committed? || s.outcome.Retry?)
      && (s.outcome.Committed? <==>
            !Hit(s.events, d.faults) && !d.commitFault && !Rejected(s, t, d.poll.result.value, EnsureId(m), d))
  {
    HandleSettles(t, g, d.poll.result.value, EnsureId(m), d, regex);
  }

  // ---------------------------------------------------------------------
  // Properties of one turn
  // ---------------------------------------------------------------------

  /** A turn commits exactly when it ends `Committed`; the commit is then
      its last event, is for the delivered record, and is its only commit;
      every other event is a store call. */
  lemma CommitIsLastAndOnly(t: Tables, g: nat, d: Delivery, decode: Decoder, regex: RegexOracle)
    ensures var s := Step(t, g, d, decode, regex);
      && (forall i :: 0 <= i < |s.events| - 1 ==> s.events[i].Call?)
      && (s.outcome.Committed? <==> (|s.events| > 0 && s.events[|s.events| - 1].Commit?))
      && (s.outcome.Committed? ==>
            s.events[|s.events| - 1] == Commit(d.poll.result.value.partition, d.poll.result.value.offset))
  {
    if d.poll.Consumed? && d.poll.result.Some? && d.poll.result.value.payload.Some? {
      var rec := d.poll.result.value;
      var decoded := decode(rec.payload.value);
      if decoded.Message? {
        HandleFacts(t, g, rec, EnsureId(decoded.message), d, regex);
      }
    }
  }

  /** A cancelled or disposed consumer stops the loop, and a turn without a
      decoded message (a null record or message, a decode error, a consume
      error) changes nothing and commits nothing. */
  lemma NothingWithoutAMessage(t: Tables, g: nat, d: Delivery, decode: Decoder, regex: RegexOracle)
    ensures Step(t, g, d, decode, regex).outcome.Stop? <==> (d.poll.Cancelled? || d.poll.Disposed?)
    ensures (forall m :: !Decodes(d, decode, m)) ==>
      Step(t, g, d, decode, regex) == StepResult(Step(t, g, d, decode, regex).outcome, t, g, [])
      && !Step(t, g, d, decode, regex).outcome.Committed?
  {
    if d.poll.Consumed? && d.poll.result.Some? && d.poll.result.value.payload.Some? {
      var decoded := decode(d.poll.result.value.payload.value);
      if decoded.Message? {
        assert Decodes(d, decode, decoded.message);
        HandleFacts(t, g, d.poll.result.value, EnsureId(decoded.message), d, regex);
      } else {
        assert Step(t, g, d, decode, regex).events == [];
      }
    }
  }

  /** A message with a blank target, or a target the store does not know,
      is committed (unless the commit throws) and not stored: no save, no
      rule load, no case. */
  lemma IneligibleNotStored(t: Tables, g: nat, d: Delivery, decode: Decoder, regex: RegexOracle, m: AuditMessage)
    requires Decodes(d, decode, m)
    requires IsBlank(m.target) || (TargetExists !in d.faults && !TargetRepository.Exists(t.targets, m.target))
    ensures Step(t, g, d, decode, regex).tables == t && Step(t, g, d, decode, regex).nextGuid == g
    ensures Call(SaveMessage) !in Step(t, g, d, decode, regex).events
    ensures Step(t, g, d, decode, regex).outcome ==
      if d.commitFault then Retry else Committed(if IsBlank(m.target) then NoTarget else UnknownTarget)
  {
    EnsureIdSpec(m);
  }

  /** For an eligible message the upsert is the first write: it comes right
      after the target check, before the rule load and any commit. */
  lemma SaveComesFirst(t: Tables, g: nat, d: Delivery, decode: Decoder, regex: RegexOracle, m: AuditMessage)
    requires Decodes(d, decode, m)
    requires !IsBlank(m.target) && TargetExists !in d.faults && TargetRepository.Exists(t.targets, m.target)
    ensures var s := Step(t, g, d, decode, regex);
      |s.events| >= 2 && s.events[0] == Call(TargetExists) && s.events[1] == Call(SaveMessage)
  {
    var rec := d.poll.result.value;
    var mm := EnsureId(m);
    EnsureIdSpec(m);
    var rest := SaveStage(t, g, rec, mm, d, regex);
    SaveStageFacts(t, g, rec, mm, d, regex);
    assert Step(t, g, d, decode, regex) == Prepend([Call(TargetExists)], rest);
  }

  /** A committed eligible message is stored, under its (possibly
      synthesised) id, with the record's position and its counter one
      higher than before. */
  lemma CommittedMessageStored(t: Tables, g: nat, d: Delivery, decode: Decoder, regex: RegexOracle, m: AuditMessage)
    requires Decodes(d, decode, m)
    requires !IsBlank(m.target) && TargetExists !in d.faults && TargetRepository.Exists(t.targets, m.target)
    requires Step(t, g, d, decode, regex).outcome.Committed?
    ensures var s := Step(t, g, d, decode, regex);
      var id := EnsureId(m).id;
      id in s.tables.auditLogs
      && s.tables.auditLogs[id] == AuditRow(EnsureId(m), d.poll.result.value.partition, d.poll.result.value.offset,
                                            AuditMessageRepository.Counter(t.auditLogs, id) + 1)
  {
    var rec := d.poll.result.value;
    var mm := EnsureId(m);
    EnsureIdSpec(m);
    var rest := SaveStage(t, g, rec, mm, d, regex);
    SaveStageFacts(t, g, rec, mm, d, regex);
    assert Step(t, g, d, decode, regex) == Prepend([Call(TargetExists)], rest);
  }

  /** The case service is called only when the target's rules extracted at
      least one value; otherwise the case tables and the GUID source are
      untouched. */
  lemma CaseOnlyForExtraction(t: Tables, g: nat, d: Delivery, decode: Decoder, regex: RegexOracle)
    ensures var s := Step(t, g, d, decode, regex);
      Call(CaseExists) in s.events ==>
        exists m :: Decodes(d, decode, m)
          && |ExtractionService.Extraction(EnsureId(m), RuleRepository.GetRulesByTarget(t, m.target), regex)| > 0
    ensures var s := Step(t, g, d, decode, regex);
      Call(CaseExists) !in s.events ==>
        s.tables.cases == t.cases && s.tables.caseExtractions == t.caseExtractions && s.nextGuid == g
  {
    if d.poll.Consumed? && d.poll.result.Some? && d.poll.result.value.payload.Some? {
      var rec := d.poll.result.value;
      var decoded := decode(rec.payload.value);
      if decoded.Message? {
        var m := decoded.message;
        EnsureIdSpec(m);
        HandleFacts(t, g, rec, EnsureId(m), d, regex);
        assert Decodes(d, decode, m);
      }
    }
  }

  /** Every turn keeps the invariant, whatever fails. */
  lemma StepKeepsInvariant(t: Tables, g: nat, d: Delivery, decode: Decoder, regex: RegexOracle)
    requires ConsumerInvariant(t)
    ensures ConsumerInvariant(Step(t, g, d, decode, regex).tables)
  {
    if d.poll.Consumed? && d.poll.result.Some? && d.poll.result.value.payload.Some? {
      var rec := d.poll.result.value;
      var decoded := decode(rec.payload.value);
      if decoded.Message? {
        HandleKeepsInvariant(t, g, rec, EnsureId(decoded.message), d, regex);
      }
    }
  }

  /** The path a turn takes when it creates a case: an eligible target, a
      saved message, extracted values, and a case creation that returned
      the new case's id. */
  lemma HandleCreatedCase(t: Tables, g: nat, rec: ConsumeRecord, m: AuditMessage, d: Delivery, regex: RegexOracle, caseId: string)
    requires Handle(t, g, rec, m, d, regex).outcome == Committed(Processed(Some(caseId)))
    ensures !IsBlank(m.target) && TargetExists !in d.faults && TargetRepository.Exists(t.targets, m.target)
    ensures LoadRules !in d.faults && !d.commitFault
    ensures AuditMessageRepository.SaveTables(t, m, rec.partition, rec.offset, SaveMessage in d.faults).Success?
    ensures var t1 := AuditMessageRepository.SaveTables(t, m, rec.partition, rec.offset, SaveMessage in d.faults).value;
      var values := ExtractionService.Extraction(m, RuleRepository.GetRulesByTarget(t1, m.target), regex);
      var c := CaseService.CreateCaseSpec(t1, g, m, values, d.now, d.faults);
      && |RuleRepository.GetRulesByTarget(t1, m.target)| > 0
      && |values| > 0 && c.result == Success(Some(caseId))
      && Handle(t, g, rec, m, d, regex).tables == c.tables
      && Handle(t, g, rec, m, d, regex).nextGuid == c.nextGuid
  {
    var saved := AuditMessageRepository.SaveTables(t, m, rec.partition, rec.offset, SaveMessage in d.faults);
    assert Handle(t, g, rec, m, d, regex) == Prepend([Call(TargetExists)], SaveStage(t, g, rec, m, d, regex));
    var t1 := saved.value;
    assert SaveStage(t, g, rec, m, d, regex) == Prepend([Call(SaveMessage)], RulesStage(t1, g, rec, m, d, regex));
    var rules := RuleRepository.GetRulesByTarget(t1, m.target);
    assert RulesStage(t1, g, rec, m, d, regex) == Prepend([Call(LoadRules)], ExtractStage(t1, g, rec, m, d, rules, regex));
    var values := ExtractionService.Extraction(m, rules, regex);
    assert ExtractStage(t1, g, rec, m, d, rules, regex) == CaseStage(t1, g, rec, m, d, values);
  }

  /** The path a turn takes when it inserts a case, whether or not the
      batch insert or the commit then throws: an eligible target, a saved
      message, extracted values, no case yet for the message, and the case
      service's new tables. */
  lemma HandleInsertedCase(t: Tables, g: nat, rec: ConsumeRecord, m: AuditMessage, d: Delivery, regex: RegexOracle)
    requires Call(CreateCase) in Handle(t, g, rec, m, d, regex).events
    requires CreateCase !in d.faults
    ensures !IsBlank(m.target) && TargetExists !in d.faults && TargetRepository.Exists(t.targets, m.target)
    ensures LoadRules !in d.faults && CaseExists !in d.faults
    ensures AuditMessageRepository.SaveTables(t, m, rec.partition, rec.offset, SaveMessage in d.faults).Success?
    ensures var t1 := AuditMessageRepository.SaveTables(t, m, rec.partition, rec.offset, SaveMessage in d.faults).value;
      var values := ExtractionService.Extraction(m, RuleRepository.GetRulesByTarget(t1, m.target), regex);
      var c := CaseService.CreateCaseSpec(t1, g, m, values, d.now, d.faults);
      && |RuleRepository.GetRulesByTarget(t1, m.target)| > 0 && |values| > 0
      && !CaseRepository.ExistsForAuditLog(t1.cases, m.id)
      && Handle(t, g, rec, m, d, regex).tables == c.tables
      && Handle(t, g, rec, m, d, regex).nextGuid == c.nextGuid
      && Handle(t, g, rec, m, d, regex).outcome == AfterCase(c, rec, d.commitFault).outcome
  {
    var s := Handle(t, g, rec, m, d, regex);
    assert !IsBlank(m.target) && TargetExists !in d.faults && TargetRepository.Exists(t.targets, m.target);
    assert s == Prepend([Call(TargetExists)], SaveStage(t, g, rec, m, d, regex));
    var saved := AuditMessageRepository.SaveTables(t, m, rec.partition, rec.offset, SaveMessage in d.faults);
    assert saved.Success?;
    var t1 := saved.value;
    assert SaveStage(t, g, rec, m, d, regex) == Prepend([Call(SaveMessage)], RulesStage(t1, g, rec, m, d, regex));
    assert LoadRules !in d.faults;
    var rules := RuleRepository.GetRulesByTarget(t1, m.target);
    assert RulesStage(t1, g, rec, m, d, regex) == Prepend([Call(LoadRules)], ExtractStage(t1, g, rec, m, d, rules, regex));
    var values := ExtractionService.Extraction(m, rules, regex);
    assert |rules| > 0 && |values| > 0;
    assert ExtractStage(t1, g, rec, m, d, rules, regex) == CaseStage(t1, g, rec, m, d, values);
    var c := CaseService.CreateCaseSpec(t1, g, m, values, d.now, d.faults);
  }

  /** Once a case exists for the message, a later turn on it creates none,
      whatever throws: the case tables and the GUID source stay as they
      were, and the turn never reports a new case. */
  lemma CaseFoundNoNewCase(u: Tables, g: nat, rec: ConsumeRecord, m: AuditMessage, d: Delivery, regex: RegexOracle)
    requires CaseRepository.ExistsForAuditLog(u.cases, m.id)
    ensures var s := Handle(u, g, rec, m, d, regex);
      && s.tables.cases == u.cases
      && s.tables.caseExtractions == u.caseExtractions
      && s.nextGuid == g
      && !(s.outcome.Committed? && s.outcome.reason.Processed? && s.outcome.reason.caseId.Some?)
  {
    var s := Handle(u, g, rec, m, d, regex);
    if !IsBlank(m.target) && TargetExists !in d.faults && TargetRepository.Exists(u.targets, m.target) {
      assert s == Prepend([Call(TargetExists)], SaveStage(u, g, rec, m, d, regex));
      var saved := AuditMessageRepository.SaveTables(u, m, rec.partition, rec.offset, SaveMessage in d.faults);
      if saved.Success? {
        var t1 := saved.value;
        assert t1.cases == u.cases && t1.caseExtractions == u.caseExtractions;
        assert SaveStage(u, g, rec, m, d, regex) == Prepend([Call(SaveMessage)], RulesStage(t1, g, rec, m, d, regex));
        if LoadRules !in d.faults {
          var rules := RuleRepository.GetRulesByTarget(t1, m.target);
          assert RulesStage(t1, g, rec, m, d, regex) == Prepend([Call(LoadRules)], ExtractStage(t1, g, rec, m, d, rules, regex));
          if |rules| > 0 {
            var values := ExtractionService.Extraction(m, rules, regex);
            assert ExtractStage(t1, g, rec, m, d, rules, regex) == CaseStage(t1, g, rec, m, d, values);
            if |values| > 0 {
              var c := CaseService.CreateCaseSpec(t1, g, m, values, d.now, d.faults);
              assert c.tables == t1 && c.nextGuid == g && (c.result.Success? ==> c.result.value == None);
            }
          }
        }
      }
    }
  }

  /** A second turn on the same message after a first turn that inserted a
      case (committed or not: the batch insert or the commit may have
      thrown), with no faults: it saves the message again, loads the same
      rules, finds the case and commits without creating another. */
  lemma HandleAgainKeepsCase(t: Tables, g: nat, rec: ConsumeRecord, m: AuditMessage, d: Delivery, d2: Delivery, regex: RegexOracle)
    requires Call(CreateCase) in Handle(t, g, rec, m, d, regex).events && CreateCase !in d.faults
    requires d2.faults == {} && !d2.commitFault
    ensures var s := Handle(t, g, rec, m, d, regex);
      var s2 := Handle(s.tables, s.nextGuid, rec, m, d2, regex);
      && s2.outcome == Committed(Processed(None))
      && s2.tables.cases == s.tables.cases
      && s2.tables.caseExtractions == s.tables.caseExtractions
      && s2.nextGuid == s.nextGuid
      && m.id in s.tables.auditLogs && m.id in s2.tables.auditLogs
      && s2.tables.auditLogs[m.id].processCounter == s.tables.auditLogs[m.id].processCounter + 1
  {
    var s := Handle(t, g, rec, m, d, regex);
    HandleInsertedCase(t, g, rec, m, d, regex);
    var t1 := AuditMessageRepository.SaveTables(t, m, rec.partition, rec.offset, SaveMessage in d.faults).value;
    var rules := RuleRepository.GetRulesByTarget(t1, m.target);
    var values := ExtractionService.Extraction(m, rules, regex);
    var u := s.tables;
    assert u.cases == t1.cases + [CaseService.NewCase(GuidText(g), m.id, d.now)];
    assert u.targets == t.targets && u.rules == t.rules && u.auditLogs == t1.auditLogs;
    assert !AuditMessageRepository.OffsetTaken(u.auditLogs, m.id, rec.partition, rec.offset) by {
      forall other | other in u.auditLogs && other != m.id
        ensures !(u.auditLogs[other].partition == rec.partition && u.auditLogs[other].offset == rec.offset)
      {
        assert u.auditLogs[other] == t.auditLogs[other];
      }
    }
    var u1 := AuditMessageRepository.SaveTables(u, m, rec.partition, rec.offset, false).value;
    assert RuleRepository.GetRulesByTarget(u1, m.target) == rules;
    assert u1.cases[|t1.cases|].auditLogId == m.id;
    CaseService.ExistingCaseNoWrites(u1, s.nextGuid, m, values, d2.now, {});
    var s2 := Handle(u, s.nextGuid, rec, m, d2, regex);
    assert s2 == Prepend([Call(TargetExists)], SaveStage(u, s.nextGuid, rec, m, d2, regex));
    assert SaveStage(u, s.nextGuid, rec, m, d2, regex) == Prepend([Call(SaveMessage)], RulesStage(u1, s.nextGuid, rec, m, d2, regex));
    assert RulesStage(u1, s.nextGuid, rec, m, d2, regex) == Prepend([Call(LoadRules)], ExtractStage(u1, s.nextGuid, rec, m, d2, rules, regex));
    assert ExtractStage(u1, s.nextGuid, rec, m, d2, rules, regex) == CaseStage(u1, s.nextGuid, rec, m, d2, values);
  }

  /** A turn whose batch insert throws after the case insert leaves an
      orphan case: the turn is caught, the case stays with none of its
      extractions, and a later turn on the message finds the case and never
      writes them, whatever that turn meets. */
  lemma OrphanCase(t: Tables, g: nat, rec: ConsumeRecord, m: AuditMessage, d: Delivery, d2: Delivery, regex: RegexOracle)
    requires Call(CreateCase) in Handle(t, g, rec, m, d, regex).events
    requires CreateCase !in d.faults && CreateBatch in d.faults
    ensures var s := Handle(t, g, rec, m, d, regex);
      && s.outcome == Retry
      && CaseRepository.ExistsForAuditLog(s.tables.cases, m.id)
      && s.tables.caseExtractions == t.caseExtractions
      && Handle(s.tables, s.nextGuid, rec, m, d2, regex).tables.caseExtractions == t.caseExtractions
  {
    var s := Handle(t, g, rec, m, d, regex);
    HandleInsertedCase(t, g, rec, m, d, regex);
    var t1 := AuditMessageRepository.SaveTables(t, m, rec.partition, rec.offset, SaveMessage in d.faults).value;
    var values := ExtractionService.Extraction(m, RuleRepository.GetRulesByTarget(t1, m.target), regex);
    var c := CaseService.CreateCaseSpec(t1, g, m, values, d.now, d.faults);
    var newCase := CaseService.NewCase(GuidText(g), m.id, d.now);
    assert c.tables.cases == t1.cases + [newCase];
    CaseRepository.CreateThenFind(t1.cases, newCase);
    CaseFoundNoNewCase(s.tables, s.nextGuid, rec, m, d2, regex);
  }

  /** A record delivered again after a first turn that inserted a case
      (the commit was lost, or the batch insert or the commit threw): the
      second turn, with no faults, creates no second case, leaves the case
      tables as they were, bumps the stored counter by one and commits. */
  lemma RedeliveryKeepsCase(t: Tables, g: nat, d: Delivery, decode: Decoder, regex: RegexOracle, m: AuditMessage, now2: int)
    requires Decodes(d, decode, m)
    requires Call(CreateCase) in Step(t, g, d, decode, regex).events && CreateCase !in d.faults
    ensures var s := Step(t, g, d, decode, regex);
      var s2 := Step(s.tables, s.nextGuid, d.(faults := {}, commitFault := false, now := now2), decode, regex);
      var id := EnsureId(m).id;
      && s2.outcome == Committed(Processed(None))
      && s2.tables.cases == s.tables.cases
      && s2.tables.caseExtractions == s.tables.caseExtractions
      && s2.nextGuid == s.nextGuid
      && id in s.tables.auditLogs && id in s2.tables.auditLogs
      && s2.tables.auditLogs[id].processCounter == s.tables.auditLogs[id].processCounter + 1
  {
    var rec := d.poll.result.value;
    var d2 := d.(faults := {}, commitFault := false, now := now2);
    HandleAgainKeepsCase(t, g, rec, EnsureId(m), d, d2, regex);
  }

  // ---------------------------------------------------------------------
  // The loop, as a value
  // ---------------------------------------------------------------------

  /** The effect of a finite run of deliveries: the tables and GUID source
      afterwards, the events in order, and how many turns ran before the
      loop stopped or the deliveries ran out. */
  datatype RunResult = RunResult(tables: Tables, nextGuid: nat, events: seq<Event>, turns: nat)

  function Run(t: Tables, g: nat, ds: seq<Delivery>, decode: Decoder, regex: RegexOracle): RunResult
    decreases |ds|
  {
    if ds == [] then RunResult(t, g, [], 0)
    else
      var s := Step(t, g, ds[0], decode, regex);
      if s.outcome.Stop? then RunResult(t, g, [], 0)
      else
        var rest := Run(s.tables, s.nextGuid, ds[1..], decode, regex);
        RunResult(rest.tables, rest.nextGuid, s.events + rest.events, rest.turns + 1)
  }

  /** The run from delivery `i` on: that turn, then the run after it. */
  lemma RunFirst(t: Tables, g: nat, ds: seq<Delivery>, i: nat, decode: Decoder, regex: RegexOracle)
    requires i < |ds|
    ensures var s := Step(t, g, ds[i], decode, regex);
      var rest := Run(s.tables, s.nextGuid, ds[i + 1..], decode, regex);
      Run(t, g, ds[i..], decode, regex) ==
        if s.outcome.Stop? then RunResult(t, g, [], 0)
        else RunResult(rest.tables, rest.nextGuid, s.events + rest.events, rest.turns + 1)
  {
    assert ds[i..][0] == ds[i] && ds[i..][1..] == ds[i + 1..];
  }

  /** Nothing after a cancellation or disposal is consumed. */
  lemma {:induction false} RunStopsAtCancellation(t: Tables, g: nat, ds: seq<Delivery>, decode: Decoder, regex: RegexOracle, k: nat)
    requires k < |ds| && (ds[k].poll.Cancelled? || ds[k].poll.Disposed?)
    ensures Run(t, g, ds, decode, regex) == Run(t, g, ds[..k], decode, regex)
    decreases k
  {
    if k > 0 {
      var s := Step(t, g, ds[0], decode, regex);
      if !s.outcome.Stop? {
        assert ds[..k][1..] == ds[1..][..k - 1];
        RunStopsAtCancellation(s.tables, s.nextGuid, ds[1..], decode, regex, k - 1);
      }
    }
  }

  /** The invariant holds after any run. */
  lemma {:induction false} RunKeepsInvariant(t: Tables, g: nat, ds: seq<Delivery>, decode: Decoder, regex: RegexOracle)
    requires ConsumerInvariant(t)
    ensures ConsumerInvariant(Run(t, g, ds, decode, regex).tables)
    decreases |ds|
  {
    if ds != [] {
      var s := Step(t, g, ds[0], decode, regex);
      StepKeepsInvariant(t, g, ds[0], decode, regex);
      if !s.outcome.Stop? {
        RunKeepsInvariant(s.tables, s.nextGuid, ds[1..], decode, regex);
      }
    }
  }

  // ---------------------------------------------------------------------
  // The service
  // ---------------------------------------------------------------------

  class AuditConsumerBackgroundService {
    const db: Database
    const guids: GuidSource
    const decode: Decoder
    const regex: RegexOracle
    /** The store calls and Kafka commits made so far, in order. */
    var log: seq<Event>

    constructor(db: Database, guids: GuidSource, decode: Decoder, regex: RegexOracle)
      ensures this.db == db && this.guids == guids && this.decode == decode && this.regex == regex
      ensures log == []
    {
      this.db := db;
      this.guids := guids;
      this.decode := decode;
      this.regex := regex;
      log := [];
    }

    /** `_kafkaConsumer.Commit(consumeResult)`, the turn's last action. */
    method CommitRecord(reason: Reason, rec: ConsumeRecord, commitFault: bool) returns (outcome: StepOutcome)
      modifies this
      ensures outcome == (if commitFault then Retry else Committed(reason))
      ensures log == old(log) + (if commitFault then [] else [Commit(rec.partition, rec.offset)])
    {
      if commitFault {
        return Retry;
      }
      log := log + [Commit(rec.partition, rec.offset)];
      outcome := Committed(reason);
    }

    /** The body of the `try` from the target check on. */
    method HandleMessage(rec: ConsumeRecord, m: AuditMessage, d: Delivery) returns (outcome: StepOutcome)
      modifies this, db, guids
      ensures outcome == Handle(old(db.tables), old(guids.next), rec, m, d, regex).outcome
      ensures db.tables == Handle(old(db.tables), old(guids.next), rec, m, d, regex).tables
      ensures guids.next == Handle(old(db.tables), old(guids.next), rec, m, d, regex).nextGuid
      ensures log == old(log) + Handle(old(db.tables), old(guids.next), rec, m, d, regex).events
    {
      if IsBlank(m.target) {
        outcome := CommitRecord(NoTarget, rec, d.commitFault);
        return;
      }
      log := log + [Call(TargetExists)];
      if TargetExists in d.faults {
        return Retry;
      }
      if !TargetRepository.Exists(db.tables.targets, m.target) {
        outcome := CommitRecord(UnknownTarget, rec, d.commitFault);
        return;
      }
      ghost var rest := SaveStage(db.tables, guids.next, rec, m, d, regex);
      outcome := SaveStep(rec, m, d);
      AppendAssoc(old(log), [Call(TargetExists)], rest.events);
    }

    /** `SaveAsync` of the message, then the rest of the turn. */
    method SaveStep(rec: ConsumeRecord, m: AuditMessage, d: Delivery) returns (outcome: StepOutcome)
      modifies this, db, guids
      ensures outcome == SaveStage(old(db.tables), old(guids.next), rec, m, d, regex).outcome
      ensures db.tables == SaveStage(old(db.tables), old(guids.next), rec, m, d, regex).tables
      ensures guids.next == SaveStage(old(db.tables), old(guids.next), rec, m, d, regex).nextGuid
      ensures log == old(log) + SaveStage(old(db.tables), old(guids.next), rec, m, d, regex).events
    {
      ghost var t0 := db.tables;
      log := log + [Call(SaveMessage)];
      var saved := AuditMessageRepository.Save(db, m, rec.partition, rec.offset, SaveMessage in d.faults);
      if saved.Fail? {
        return Retry;
      }
      ghost var rest := RulesStage(db.tables, guids.next, rec, m, d, regex);
      assert SaveStage(t0, guids.next, rec, m, d, regex) == Prepend([Call(SaveMessage)], rest);
      outcome := RulesStep(rec, m, d);
      AppendAssoc(old(log), [Call(SaveMessage)], rest.events);
    }

    /** `GetRulesByTargetAsync`, then the rest of the turn. */
    method RulesStep(rec: ConsumeRecord, m: AuditMessage, d: Delivery) returns (outcome: StepOutcome)
      modifies this, db, guids
      ensures outcome == RulesStage(old(db.tables), old(guids.next), rec, m, d, regex).outcome
      ensures db.tables == RulesStage(old(db.tables), old(guids.next), rec, m, d, regex).tables
      ensures guids.next == RulesStage(old(db.tables), old(guids.next), rec, m, d, regex).nextGuid
      ensures log == old(log) + RulesStage(old(db.tables), old(guids.next), rec, m, d, regex).events
    {
      log := log + [Call(LoadRules)];
      if LoadRules in d.faults {
        return Retry;
      }
      var rules := RuleRepository.GetRulesByTarget(db.tables, m.target);
      if |rules| == 0 {
        outcome := CommitRecord(NoRules, rec, d.commitFault);
        return;
      }
      var values := ExtractionService.ApplyRules(m, rules, regex);
      ghost var rest := CaseStage(db.tables, guids.next, rec, m, d, values);
      assert RulesStage(old(db.tables), old(guids.next), rec, m, d, regex)
        == Prepend([Call(LoadRules)], ExtractStage(db.tables, guids.next, rec, m, d, rules, regex));
      outcome := CaseStep(rec, m, d, values);
      AppendAssoc(old(log), [Call(LoadRules)], rest.events);
    }

    /** The case, when something was extracted, then the commit. */
    method CaseStep(rec: ConsumeRecord, m: AuditMessage, d: Delivery, values: seq<ExtractedValue>) returns (outcome: StepOutcome)
      modifies this, db, guids
      ensures outcome == CaseStage(old(db.tables), old(guids.next), rec, m, d, values).outcome
      ensures db.tables == CaseStage(old(db.tables), old(guids.next), rec, m, d, values).tables
      ensures guids.next == CaseStage(old(db.tables), old(guids.next), rec, m, d, values).nextGuid
      ensures log == old(log) + CaseStage(old(db.tables), old(guids.next), rec, m, d, values).events
    {
      var caseId: Option<string> := None;
      if |values| > 0 {
        var created, calls := CaseService.CreateCaseWithExtractions(db, guids, m, values, d.now, d.faults);
        log := log + CallEvents(calls);
        if created.Failure? {
          return Retry;
        }
        caseId := created.value;
      }
      outcome := CommitRecord(Processed(caseId), rec, d.commitFault);
    }

    /** One turn of the `while` loop. */
    method ProcessDelivery(d: Delivery) returns (outcome: StepOutcome)
      modifies this, db, guids
      ensures outcome == Step(old(db.tables), old(guids.next), d, decode, regex).outcome
      ensures db.tables == Step(old(db.tables), old(guids.next), d, decode, regex).tables
      ensures guids.next == Step(old(db.tables), old(guids.next), d, decode, regex).nextGuid
      ensures log == old(log) + Step(old(db.tables), old(guids.next), d, decode, regex).events
    {
      match d.poll {
        case Cancelled => return Stop;
        case Disposed => return Stop;
        case Failed => return Retry;
        case Consumed(r) =>
          if r.None? || r.value.payload.None? {
            return Ignored;
          }
          var rec := r.value;
          var decoded := decode(rec.payload.value);
          if decoded.JsonError? {
            return Retry;
          }
          if decoded.NullMessage? {
            return Ignored;
          }
          var m := decoded.message;
          if m.id == "" {
            m := m.(id := SynthesisedId(m));
          }
          outcome := HandleMessage(rec, m, d);
      }
    }

    /** One turn of the loop on delivery `i`, read against the run from
        `i` on: a stop ends the run where it is; any other outcome leaves
        the rest of the run to the deliveries after `i`. */
    method Turn(ds: seq<Delivery>, i: nat) returns (stop: bool)
      requires i < |ds|
      modifies this, db, guids
      ensures stop ==> Run(old(db.tables), old(guids.next), ds[i..], decode, regex).events == []
      ensures stop ==> Run(old(db.tables), old(guids.next), ds[i..], decode, regex).turns == 0
      ensures stop ==> db.tables == Run(old(db.tables), old(guids.next), ds[i..], decode, regex).tables
      ensures stop ==> guids.next == Run(old(db.tables), old(guids.next), ds[i..], decode, regex).nextGuid
      ensures stop ==> log == old(log)
      ensures !stop ==> (Run(old(db.tables), old(guids.next), ds[i..], decode, regex).tables
        == Run(db.tables, guids.next, ds[i + 1..], decode, regex).tables)
      ensures !stop ==> (Run(old(db.tables), old(guids.next), ds[i..], decode, regex).nextGuid
        == Run(db.tables, guids.next, ds[i + 1..], decode, regex).nextGuid)
      ensures !stop ==> (Run(old(db.tables), old(guids.next), ds[i..], decode, regex).turns
        == Run(db.tables, guids.next, ds[i + 1..], decode, regex).turns + 1)
      ensures !stop ==> (old(log) + Run(old(db.tables), old(guids.next), ds[i..], decode, regex).events
        == log + Run(db.tables, guids.next, ds[i + 1..], decode, regex).events)
    {
      ghost var s := Step(db.tables, guids.next, ds[i], decode, regex);
      ghost var rest := Run(s.tables, s.nextGuid, ds[i + 1..], decode, regex);
      RunFirst(db.tables, guids.next, ds, i, decode, regex);
      NothingWithoutAMessage(db.tables, guids.next, ds[i], decode, regex);
      var outcome := ProcessDelivery(ds[i]);
      stop := outcome.Stop?;
      if !stop {
        AppendAssoc(old(log), s.events, rest.events);
      }
    }

    /** `ExecuteAsync` over a finite run of deliveries: turn after turn
        until the consumer is cancelled or disposed. */
    method Execute(ds: seq<Delivery>) returns (turns: nat)
      modifies this, db, guids
      ensures db.tables == Run(old(db.tables), old(guids.next), ds, decode, regex).tables
      ensures guids.next == Run(old(db.tables), old(guids.next), ds, decode, regex).nextGuid
      ensures log == old(log) + Run(old(db.tables), old(guids.next), ds, decode, regex).events
      ensures turns == Run(old(db.tables), old(guids.next), ds, decode, regex).turns
    {
      ghost var total := Run(db.tables, guids.next, ds, decode, regex);
      var i := 0;
      turns := 0;
      assert ds[0..] == ds;
      while i < |ds|
        invariant 0 <= i <= |ds|
        invariant turns == i
        invariant total.tables == Run(db.tables, guids.next, ds[i..], decode, regex).tables
        invariant total.nextGuid == Run(db.tables, guids.next, ds[i..], decode, regex).nextGuid
        invariant total.turns == i + Run(db.tables, guids.next, ds[i..], decode, regex).turns
        invariant old(log) + total.events == log + Run(db.tables, guids.next, ds[i..], decode, regex).events
      {
        var stop := Turn(ds, i);
        if stop {
          assert log + [] == log;
          return;
        }
        i := i + 1;
        turns := turns + 1;
      }
    }
  }
}
