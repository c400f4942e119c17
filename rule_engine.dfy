// `RegexRuleEngine`, the second extraction engine: rules are loaded once
// per target and cached, each rule keeps group 1 of its FIRST match under
// its `RuleName` (a later rule with the same name overwrites), a required
// rule without such a match aborts the call, and a regex that does not
// compile propagates. The static `Regex.Match` here sets no match timeout,
// so the oracle's `Timeout` answer stands only for a process-wide default
// timeout; every property below holds whether or not the oracle ever gives
// it. This engine is not the one the consumer loop runs; it is modelled
// beside `ExtractionService`, not merged with it.
module RuleEngine {
  import opened Wrappers
  import opened Domain
  import opened Store
  import opened Text
  import opened FieldMaps
  import RuleRepository
  import ExtractionService

  /** The arms of this engine's `GetSourceValue`: those of
      `ExtractionService` without the `text` alias. */
  const EngineFieldNames: seq<string> := ExtractionService.SourceFieldNames[1..]

  /** `GetSourceValue` of this engine. */
  function EngineSourceValue(m: AuditMessage, field: string): Option<string> {
    ExtractionService.Lookup(EngineFieldNames, ExtractionService.SourceFields(m)[1..], ToLower(field))
  }

  /** The value is null exactly for a name this engine does not know, or
      for `privilegeused` when the message has no privilege. */
  lemma EngineSourceValueNone(m: AuditMessage, field: string)
    ensures EngineSourceValue(m, field).None? <==>
      ToLower(field) !in EngineFieldNames || (ToLower(field) == "privilegeused" && m.privilegeUsed.None?)
  {
    var key := ToLower(field);
    var fields := ExtractionService.SourceFields(m);
    if key !in EngineFieldNames {
      ExtractionService.LookupAbsent(EngineFieldNames, fields[1..], key);
    } else {
      var i :| 0 <= i < |EngineFieldNames| && EngineFieldNames[i] == key;
      ExtractionService.SourceFieldNamesDistinct();
      ExtractionService.LookupAt(EngineFieldNames, fields[1..], key, i);
      ExtractionService.OnlyPrivilegeNullable(m, i + 1);
      assert EngineFieldNames[13] == "privilegeused";
    }
  }

  /** The two engines read the same field for every name except `text`,
      which only `ExtractionService` knows. */
  lemma EngineSourceValueAgrees(m: AuditMessage, field: string)
    ensures ToLower(field) != "text" ==> EngineSourceValue(m, field) == ExtractionService.SourceValue(m, field)
    ensures ToLower(field) == "text" ==>
      EngineSourceValue(m, field).None? && ExtractionService.SourceValue(m, field) == Some(m.sqlText)
  {
    if ToLower(field) == "text" {
      ExtractionService.SourceFieldNamesDistinct();
      assert "text" !in EngineFieldNames by {
        assert forall i :: 0 <= i < |EngineFieldNames| ==> EngineFieldNames[i] == ExtractionService.SourceFieldNames[i + 1];
      }
      ExtractionService.LookupAbsent(EngineFieldNames, ExtractionService.SourceFields(m)[1..], "text");
    }
  }

  /** Why `ApplyRulesAsync` throws: the rule load failed, `Regex.Match`
      threw, or a required rule did not match. */
  datatype EngineError =
    | StoreFailure(error: StoreError)
    | RegexFailure
    | RuleValidation(ruleName: string, target: string)

  /** `Regex.Match` of the rule's pattern over its source value, a null
      value being matched as the empty string. */
  function Probe(m: AuditMessage, rule: ExtractionRule, regex: RegexOracle): RegexOutcome {
    regex(rule.regexPattern, EngineSourceValue(m, rule.sourceField).GetOr(""))
  }

  /** Group 1 of the first match, when there is a match and the pattern has
      a group (`match.Success && match.Groups.Count > 1`). */
  function Captured(m: AuditMessage, rule: ExtractionRule, regex: RegexOracle): (r: Option<string>)
    ensures r.Some? <==> (Probe(m, rule, regex).Ok? && |Probe(m, rule, regex).matches| > 0
      && |Probe(m, rule, regex).matches[0].groups| > 0)
  {
    match Probe(m, rule, regex)
    case Ok(ms) => if |ms| > 0 && |ms[0].groups| > 0 then Some(ms[0].groups[0]) else None
    case _ => None
  }

  /** One iteration of the `foreach`: store the captured value, throw for a
      required rule without one, or go on. */
  function RuleStep(m: AuditMessage, rule: ExtractionRule, regex: RegexOracle, fields: FieldMap): Result<FieldMap, EngineError> {
    if !Probe(m, rule, regex).Ok? then Failure(RegexFailure)
    else match Captured(m, rule, regex)
      case Some(v) => Success(Put(fields, rule.ruleName, v))
      case None => if rule.isRequired then Failure(RuleValidation(rule.ruleName, m.target)) else Success(fields)
  }

  /** The `foreach` over the rules, from an empty dictionary. */
  function ApplyAll(m: AuditMessage, rules: seq<ExtractionRule>, regex: RegexOracle): Result<FieldMap, EngineError> {
    if rules == [] then Success([])
    else match ApplyAll(m, rules[..|rules| - 1], regex)
      case Failure(e) => Failure(e)
      case Success(fields) => RuleStep(m, rules[|rules| - 1], regex, fields)
  }

  /** A rule that makes the call throw, whatever the dictionary holds. */
  predicate Fails(m: AuditMessage, rule: ExtractionRule, regex: RegexOracle) {
    !Probe(m, rule, regex).Ok? || (Captured(m, rule, regex).None? && rule.isRequired)
  }

  /** What a failing rule throws. */
  function ErrorOf(m: AuditMessage, rule: ExtractionRule, regex: RegexOracle): EngineError {
    if !Probe(m, rule, regex).Ok? then RegexFailure else RuleValidation(rule.ruleName, m.target)
  }

  /** The reference for the dictionary: the value of the LAST rule named
      `k` that captured something, scanning the rules from the end. */
  function LastCaptured(m: AuditMessage, rules: seq<ExtractionRule>, regex: RegexOracle, k: string): Option<string> {
    if rules == [] then None
    else
      var rule := rules[|rules| - 1];
      if rule.ruleName == k && Captured(m, rule, regex).Some? then Captured(m, rule, regex)
      else LastCaptured(m, rules[..|rules| - 1], regex, k)
  }

  /** The `foreach` with its `ExtractedFields` dictionary updated in place;
      it stops at the first rule that throws. */
  method ApplyRuleList(m: AuditMessage, rules: seq<ExtractionRule>, regex: RegexOracle) returns (r: Result<FieldMap, EngineError>)
    ensures r == ApplyAll(m, rules, regex)
  {
    var fields: FieldMap := [];
    var i := 0;
    while i < |rules|
      invariant 0 <= i <= |rules|
      invariant ApplyAll(m, rules[..i], regex) == Success(fields)
    {
      var rule := rules[i];
      assert rules[..i + 1][..i] == rules[..i];
      var source := EngineSourceValue(m, rule.sourceField);
      var outcome := regex(rule.regexPattern, source.GetOr(""));
      if !outcome.Ok? {
        FailureSticks(m, rules, i + 1, regex);
        return Failure(RegexFailure);
      }
      if |outcome.matches| > 0 && |outcome.matches[0].groups| > 0 {
        fields := Put(fields, rule.ruleName, outcome.matches[0].groups[0]);
      } else if rule.isRequired {
        FailureSticks(m, rules, i + 1, regex);
        return Failure(RuleValidation(rule.ruleName, m.target));
      }
      i := i + 1;
    }
    assert rules[..i] == rules;
    r := Success(fields);
  }

  /** Once a prefix of the rules throws, the whole call throws the same. */
  lemma {:induction false} FailureSticks(m: AuditMessage, rules: seq<ExtractionRule>, n: nat, regex: RegexOracle)
    requires n <= |rules| && ApplyAll(m, rules[..n], regex).Failure?
    ensures ApplyAll(m, rules, regex) == ApplyAll(m, rules[..n], regex)
    decreases |rules| - n
  {
    if n == |rules| {
      assert rules[..n] == rules;
    } else {
      var init := rules[..|rules| - 1];
      assert init[..n] == rules[..n];
      FailureSticks(m, init, n, regex);
    }
  }

  /** The call returns a dictionary exactly when no rule throws. */
  lemma {:induction false} ApplyAllSucceeds(m: AuditMessage, rules: seq<ExtractionRule>, regex: RegexOracle)
    ensures ApplyAll(m, rules, regex).Success? <==> forall i :: 0 <= i < |rules| ==> !Fails(m, rules[i], regex)
  {
    if rules != [] {
      var init := rules[..|rules| - 1];
      ApplyAllSucceeds(m, init, regex);
      if ApplyAll(m, rules, regex).Success? {
        forall i | 0 <= i < |rules| ensures !Fails(m, rules[i], regex) {
          if i < |init| {
            assert rules[i] == init[i];
          }
        }
      }
      if forall i :: 0 <= i < |rules| ==> !Fails(m, rules[i], regex) {
        assert forall i :: 0 <= i < |init| ==> init[i] == rules[i];
      }
    }
  }

  /** A call that throws, throws for the first rule that fails. */
  lemma {:induction false} ApplyAllFirstError(m: AuditMessage, rules: seq<ExtractionRule>, regex: RegexOracle)
    ensures ApplyAll(m, rules, regex).Failure? ==>
      exists i :: (0 <= i < |rules| && Fails(m, rules[i], regex)
        && (forall j :: 0 <= j < i ==> !Fails(m, rules[j], regex))
        && ApplyAll(m, rules, regex).error == ErrorOf(m, rules[i], regex))
  {
    if rules != [] {
      var init := rules[..|rules| - 1];
      var last := |rules| - 1;
      ApplyAllFirstError(m, init, regex);
      if ApplyAll(m, init, regex).Failure? {
        var i :| 0 <= i < |init| && Fails(m, init[i], regex)
          && (forall j :: 0 <= j < i ==> !Fails(m, init[j], regex))
          && ApplyAll(m, init, regex).error == ErrorOf(m, init[i], regex);
        assert rules[i] == init[i];
        assert forall j :: 0 <= j < i ==> rules[j] == init[j];
      } else if ApplyAll(m, rules, regex).Failure? {
        ApplyAllSucceeds(m, init, regex);
        assert forall j :: 0 <= j < last ==> rules[j] == init[j];
        assert Fails(m, rules[last], regex);
      }
    }
  }

  /** Last write wins: in a returned dictionary, each rule name holds the
      value of the last rule of that name that captured something, and a
      name no capturing rule carries is absent. */
  lemma {:induction false} ApplyAllLastWriteWins(m: AuditMessage, rules: seq<ExtractionRule>, regex: RegexOracle, k: string)
    requires ApplyAll(m, rules, regex).Success?
    ensures Lookup(ApplyAll(m, rules, regex).value, k) == LastCaptured(m, rules, regex, k)
  {
    if rules != [] {
      var init := rules[..|rules| - 1];
      var rule := rules[|rules| - 1];
      ApplyAllLastWriteWins(m, init, regex, k);
      var fields := ApplyAll(m, init, regex).value;
      if Captured(m, rule, regex).Some? {
        PutLookup(fields, rule.ruleName, Captured(m, rule, regex).value, k);
      }
    }
  }

  /** A returned dictionary has each rule name at most once. */
  lemma {:induction false} ApplyAllDistinctKeys(m: AuditMessage, rules: seq<ExtractionRule>, regex: RegexOracle)
    requires ApplyAll(m, rules, regex).Success?
    ensures DistinctKeys(ApplyAll(m, rules, regex).value)
  {
    if rules != [] {
      var init := rules[..|rules| - 1];
      var rule := rules[|rules| - 1];
      ApplyAllDistinctKeys(m, init, regex);
      if Captured(m, rule, regex).Some? {
        PutDistinct(ApplyAll(m, init, regex).value, rule.ruleName, Captured(m, rule, regex).value);
      }
    }
  }

  /** With no required rule among them, the rules can only throw a regex
      error, never a `RuleValidationException`. */
  lemma OptionalRulesNeverInvalidate(m: AuditMessage, rules: seq<ExtractionRule>, regex: RegexOracle)
    requires forall i :: 0 <= i < |rules| ==> !rules[i].isRequired
    ensures ApplyAll(m, rules, regex).Failure? ==> ApplyAll(m, rules, regex).error == RegexFailure
  {
    ApplyAllFirstError(m, rules, regex);
  }

  /** Rules loaded by `RuleRepository` never carry `IsRequired`, so in the
      deployed wiring the required-rule branch is never taken. */
  lemma LoadedRulesNeverInvalidate(t: Tables, m: AuditMessage, regex: RegexOracle)
    ensures ApplyAll(m, RuleRepository.GetRulesByTarget(t, m.target), regex).Failure? ==>
      ApplyAll(m, RuleRepository.GetRulesByTarget(t, m.target), regex).error == RegexFailure
  {
    var rules := RuleRepository.GetRulesByTarget(t, m.target);
    forall i | 0 <= i < |rules| ensures !rules[i].isRequired {
      RuleRepository.GetRulesByTargetSpec(t, m.target, rules[i]);
    }
    OptionalRulesNeverInvalidate(m, rules, regex);
  }

  // ---------------------------------------------------------------------
  // The per-target rule cache
  // ---------------------------------------------------------------------

  /** The result of one `GetRulesForTargetAsync`: the rules or the load's
      exception, the cache afterwards, and whether the repository was
      queried. */
  datatype Served = Served(result: Result<seq<ExtractionRule>, StoreError>, cache: map<string, seq<ExtractionRule>>, queried: bool)

  /** `GetRulesForTargetAsync` as a value: a cached list (empty or not) is
      returned as is; otherwise the repository is queried and a successful
      load is cached, a failed one is not. */
  function Serve(cache: map<string, seq<ExtractionRule>>, t: Tables, target: string, fault: bool): Served {
    if target in cache then Served(Success(cache[target]), cache, false)
    else if fault then Served(Failure(Unavailable), cache, true)
    else
      var rules := RuleRepository.GetRulesByTarget(t, target);
      Served(Success(rules), cache[target := rules], true)
  }

  /** The repository is queried exactly when the target is not cached; a
      successful call leaves its list cached, a failed one leaves the whole
      cache as it was, and the entries of other targets are never touched. */
  lemma ServeSpec(cache: map<string, seq<ExtractionRule>>, t: Tables, target: string, fault: bool, other: string)
    ensures Serve(cache, t, target, fault).queried <==> target !in cache
    ensures Serve(cache, t, target, fault).result.Failure? <==> target !in cache && fault
    ensures Serve(cache, t, target, fault).result.Success? ==>
      target in Serve(cache, t, target, fault).cache
      && Serve(cache, t, target, fault).cache[target] == Serve(cache, t, target, fault).result.value
    ensures Serve(cache, t, target, fault).result.Failure? ==> Serve(cache, t, target, fault).cache == cache
    ensures other != target ==>
      (other in Serve(cache, t, target, fault).cache <==> other in cache)
      && (other in cache ==> Serve(cache, t, target, fault).cache[other] == cache[other])
  {
  }

  /** Loaded at most once: after a successful call for a target, every
      later call for it answers from the cache without querying, with the
      same list, even when the rule tables have changed since or the
      database has become unreachable. */
  lemma ServeAgain(cache: map<string, seq<ExtractionRule>>, t1: Tables, t2: Tables, target: string, f1: bool, f2: bool)
    requires Serve(cache, t1, target, f1).result.Success?
    ensures Serve(Serve(cache, t1, target, f1).cache, t2, target, f2)
      == Served(Serve(cache, t1, target, f1).result, Serve(cache, t1, target, f1).cache, false)
  {
  }

  /** A successful first load returns exactly what the rule query gives. */
  lemma ServeLoadsRepository(cache: map<string, seq<ExtractionRule>>, t: Tables, target: string)
    requires target !in cache
    ensures Serve(cache, t, target, false).result == Success(RuleRepository.GetRulesByTarget(t, target))
  {
  }

  /** The whole of `ApplyRulesAsync` as a value, given the outcome of the
      rule lookup: the header is copied from the message, the dictionary
      comes from the rules. */
  function EngineResult(m: AuditMessage, rules: Result<seq<ExtractionRule>, StoreError>, regex: RegexOracle, now: int): Result<ExtractedData, EngineError> {
    match rules
    case Failure(e) => Failure(StoreFailure(e))
    case Success(rs) =>
      match ApplyAll(m, rs, regex)
      case Failure(e) => Failure(e)
      case Success(fields) => Success(ExtractedData(m.id, m.owner, m.name, m.sqlText, fields, now))
  }

  /** A result always carries the message's id, owner, name and SQL text,
      and no rules means an empty dictionary. */
  lemma EngineResultHeader(m: AuditMessage, rules: Result<seq<ExtractionRule>, StoreError>, regex: RegexOracle, now: int)
    ensures EngineResult(m, rules, regex, now).Success? ==>
      var d := EngineResult(m, rules, regex, now).value;
      d.auditRecordId == m.id && d.schema == m.owner && d.tableName == m.name && d.sqlText == m.sqlText
      && d.processedAt == now
    ensures rules == Success([]) ==> EngineResult(m, rules, regex, now) == Success(ExtractedData(m.id, m.owner, m.name, m.sqlText, [], now))
    ensures rules.Failure? ==> EngineResult(m, rules, regex, now) == Failure(StoreFailure(rules.error))
  {
  }

  class RegexRuleEngine {
    /** `_ruleCache`. */
    var cache: map<string, seq<ExtractionRule>>
    /** The targets whose rules the repository has successfully loaded, in
        load order. */
    ghost var loaded: seq<string>

    /** Each target was successfully loaded at most once, and the cached
        targets are exactly the loaded ones. */
    ghost predicate Valid()
      reads this
    {
      (forall i, j :: 0 <= i < j < |loaded| ==> loaded[i] != loaded[j])
      && (forall k :: k in cache <==> k in loaded)
    }

    constructor()
      ensures Valid() && cache == map[] && loaded == []
    {
      cache := map[];
      loaded := [];
    }

    /** `GetRulesForTargetAsync`, over the rule tables `t`; `fault` says
        whether the repository call throws. */
    method GetRulesForTarget(t: Tables, target: string, fault: bool) returns (r: Result<seq<ExtractionRule>, StoreError>)
      requires Valid()
      modifies this
      ensures Valid()
      ensures r == Serve(old(cache), t, target, fault).result
      ensures cache == Serve(old(cache), t, target, fault).cache
      ensures loaded == old(loaded) + (if target !in old(cache) && r.Success? then [target] else [])
    {
      if target in cache {
        return Success(cache[target]);
      }
      if fault {
        return Failure(Unavailable);
      }
      var rules := RuleRepository.GetRulesByTarget(t, target);
      cache := cache[target := rules];
      loaded := loaded + [target];
      r := Success(rules);
    }

    /** `ApplyRulesAsync`; `now` is the clock reading of `ProcessedAt`. */
    method ApplyRulesAsync(t: Tables, m: AuditMessage, regex: RegexOracle, fault: bool, now: int) returns (r: Result<ExtractedData, EngineError>)
      requires Valid()
      modifies this
      ensures Valid()
      ensures cache == Serve(old(cache), t, m.target, fault).cache
      ensures r == EngineResult(m, Serve(old(cache), t, m.target, fault).result, regex, now)
    {
      var rules := GetRulesForTarget(t, m.target, fault);
      if rules.Failure? {
        return Failure(StoreFailure(rules.error));
      }
      if |rules.value| == 0 {
        return Success(ExtractedData(m.id, m.owner, m.name, m.sqlText, [], now));
      }
      var fields := ApplyRuleList(m, rules.value, regex);
      if fields.Failure? {
        return Failure(fields.error);
      }
      r := Success(ExtractedData(m.id, m.owner, m.name, m.sqlText, fields.value, now));
    }
  }
}
