// `ExtractionService`, the extraction engine the consumer loop runs: rules
// in ascending `RuleOrder` (a stable sort), one `ExtractedValue` per regex
// match, per-rule regex errors and timeouts swallowed, `IsRequired` ignored.
module ExtractionService {
  import opened Wrappers
  import opened Domain
  import opened Text
  import opened Seqs

  /** The names of the arms of `GetSourceValue`'s `switch`, lower-cased,
      in order. */
  const SourceFieldNames: seq<string> := [
    "text", "sqltext", "bindvariables", "owner", "name", "dbuser", "userhost", "terminal",
    "osuser", "target", "authprivileges", "authgrantee", "newowner", "newname", "privilegeused"
  ]

  /** The message field each arm selects. */
  function SourceFields(m: AuditMessage): (r: seq<Option<string>>)
    ensures |r| == |SourceFieldNames|
  {
    [ Some(m.sqlText), Some(m.sqlText), Some(m.bindVariables), Some(m.owner), Some(m.name),
      Some(m.dbUser), Some(m.userHost), Some(m.terminal), Some(m.osUser), Some(m.target),
      Some(m.authPrivileges), Some(m.authGrantee), Some(m.newOwner), Some(m.newName), m.privilegeUsed ]
  }

  lemma SourceFieldNamesDistinct()
    ensures forall i, j :: 0 <= i < j < |SourceFieldNames| ==> SourceFieldNames[i] != SourceFieldNames[j]
  {
  }

  /** Only the last arm, `privilegeused`, can select a null field. */
  lemma OnlyPrivilegeNullable(m: AuditMessage, i: nat)
    requires i < |SourceFieldNames|
    ensures i != 14 ==> SourceFields(m)[i].Some?
    ensures SourceFields(m)[14] == m.privilegeUsed
  {
  }

  /** The first arm named `key`, or the default arm (null). */
  function Lookup(names: seq<string>, fields: seq<Option<string>>, key: string): Option<string> {
    if names == [] || fields == [] then None
    else if names[0] == key then fields[0]
    else Lookup(names[1..], fields[1..], key)
  }

  lemma {:induction false} LookupAbsent(names: seq<string>, fields: seq<Option<string>>, key: string)
    requires key !in names
    ensures Lookup(names, fields, key) == None
  {
    if names != [] && fields != [] {
      LookupAbsent(names[1..], fields[1..], key);
    }
  }

  lemma {:induction false} LookupAt(names: seq<string>, fields: seq<Option<string>>, key: string, i: nat)
    requires i < |names| == |fields| && names[i] == key
    requires forall j :: 0 <= j < i ==> names[j] != key
    ensures Lookup(names, fields, key) == fields[i]
  {
    if i > 0 {
      LookupAt(names[1..], fields[1..], key, i - 1);
    }
  }

  /** `GetSourceValue`: the message field a rule reads, by lower-cased name. */
  function SourceValue(m: AuditMessage, field: string): Option<string> {
    Lookup(SourceFieldNames, SourceFields(m), ToLower(field))
  }

  /** The value is null exactly for a name outside the table, or for
      `privilegeused` when the message has no privilege. */
  lemma SourceValueNone(m: AuditMessage, field: string)
    ensures SourceValue(m, field).None? <==>
      ToLower(field) !in SourceFieldNames || (ToLower(field) == "privilegeused" && m.privilegeUsed.None?)
  {
    var key := ToLower(field);
    if key !in SourceFieldNames {
      LookupAbsent(SourceFieldNames, SourceFields(m), key);
    } else {
      var i :| 0 <= i < |SourceFieldNames| && SourceFieldNames[i] == key;
      SourceFieldNamesDistinct();
      LookupAt(SourceFieldNames, SourceFields(m), key, i);
      OnlyPrivilegeNullable(m, i);
      assert SourceFieldNames[14] == "privilegeused";
    }
  }

  /** The name is looked up case-insensitively: a name and its lower-cased
      form select the same field. */
  lemma SourceFieldCaseInsensitive(m: AuditMessage, field: string)
    ensures SourceValue(m, field) == SourceValue(m, ToLower(field))
  {
    ToLowerIdempotent(field);
  }

  /** Group 1 when the pattern has a capturing group, else the whole match. */
  function CapturedValue(mt: Match): string {
    if |mt.groups| > 0 then mt.groups[0] else mt.value
  }

  function ValueOf(rule: ExtractionRule, mt: Match): ExtractedValue {
    ExtractedValue(rule.id, rule.ruleName, rule.regexPattern, rule.sourceField, CapturedValue(mt))
  }

  /** The values of one rule's matches, one per match in match order. */
  function MatchValues(rule: ExtractionRule, ms: seq<Match>): (r: seq<ExtractedValue>)
    ensures |r| == |ms|
    ensures forall k :: 0 <= k < |ms| ==> r[k] == ValueOf(rule, ms[k])
  {
    if ms == [] then [] else MatchValues(rule, ms[..|ms| - 1]) + [ValueOf(rule, ms[|ms| - 1])]
  }

  /** What one rule contributes: nothing when its source value is null or
      empty, or its pattern is invalid or times out; otherwise one value per
      match. */
  function RuleValues(m: AuditMessage, rule: ExtractionRule, regex: RegexOracle): seq<ExtractedValue> {
    var source := SourceValue(m, rule.sourceField);
    if source.None? || source.value == "" then []
    else match regex(rule.regexPattern, source.value)
      case Ok(ms) => MatchValues(rule, ms)
      case _ => []
  }

  /** The values of an already ordered rule list, rule after rule. */
  function ValuesOf(m: AuditMessage, rules: seq<ExtractionRule>, regex: RegexOracle): seq<ExtractedValue> {
    if rules == [] then []
    else ValuesOf(m, rules[..|rules| - 1], regex) + RuleValues(m, rules[|rules| - 1], regex)
  }

  /** `ApplyRulesAsync` as a value: the rules sorted by `RuleOrder`, then
      each rule's values in turn. */
  function Extraction(m: AuditMessage, rules: seq<ExtractionRule>, regex: RegexOracle): seq<ExtractedValue> {
    ValuesOf(m, SortBy(rules, RuleOrderKey), regex)
  }

  lemma ValuesOfPrefix(m: AuditMessage, rules: seq<ExtractionRule>, i: nat, regex: RegexOracle)
    requires i < |rules|
    ensures ValuesOf(m, rules[..i + 1], regex) == ValuesOf(m, rules[..i], regex) + RuleValues(m, rules[i], regex)
  {
    assert rules[..i + 1][..i] == rules[..i];
  }

  /** `ApplyRulesAsync`. */
  method ApplyRules(m: AuditMessage, rules: seq<ExtractionRule>, regex: RegexOracle) returns (values: seq<ExtractedValue>)
    ensures values == Extraction(m, rules, regex)
  {
    values := [];
    var ordered := SortBy(rules, RuleOrderKey);
    var i := 0;
    while i < |ordered|
      invariant 0 <= i <= |ordered|
      invariant values == ValuesOf(m, ordered[..i], regex)
    {
      ValuesOfPrefix(m, ordered, i, regex);
      values := ApplyRule(m, ordered[i], regex, values);
      i := i + 1;
    }
    assert ordered[..i] == ordered;
  }

  /** The body of the rule loop: `rule`'s values appended to `values`. */
  method ApplyRule(m: AuditMessage, rule: ExtractionRule, regex: RegexOracle, values: seq<ExtractedValue>)
    returns (r: seq<ExtractedValue>)
    ensures r == values + RuleValues(m, rule, regex)
  {
    r := values;
    var source := SourceValue(m, rule.sourceField);
    if source.None? || source.value == "" {
      assert values + [] == values;
      return;
    }
    var outcome := regex(rule.regexPattern, source.value);
    if !outcome.Ok? {
      assert values + [] == values;
      return;
    }
    var k := 0;
    while k < |outcome.matches|
      invariant 0 <= k <= |outcome.matches|
      invariant r == values + MatchValues(rule, outcome.matches[..k])
    {
      assert outcome.matches[..k + 1][..k] == outcome.matches[..k];
      r := r + [ValueOf(rule, outcome.matches[k])];
      k := k + 1;
    }
    assert outcome.matches[..k] == outcome.matches;
  }

  // ---------------------------------------------------------------------
  // Order and provenance
  // ---------------------------------------------------------------------

  lemma {:induction false} ValuesOfConcat(m: AuditMessage, a: seq<ExtractionRule>, b: seq<ExtractionRule>, regex: RegexOracle)
    ensures ValuesOf(m, a + b, regex) == ValuesOf(m, a, regex) + ValuesOf(m, b, regex)
    decreases |b|
  {
    if b == [] {
      assert a + b == a;
    } else {
      assert (a + b)[..|a + b| - 1] == a + b[..|b| - 1];
      ValuesOfConcat(m, a, b[..|b| - 1], regex);
    }
  }

  lemma ValuesOfSnoc(m: AuditMessage, a: seq<ExtractionRule>, r: ExtractionRule, regex: RegexOracle)
    ensures ValuesOf(m, a + [r], regex) == ValuesOf(m, a, regex) + RuleValues(m, r, regex)
  {
    var ar := a + [r];
    assert ar[..|ar| - 1] == a && ar[|ar| - 1] == r;
  }

  /** For each value, the rule that produced it. */
  ghost function Provenance(m: AuditMessage, rules: seq<ExtractionRule>, regex: RegexOracle): (p: seq<ExtractionRule>)
    ensures |p| == |ValuesOf(m, rules, regex)|
  {
    if rules == [] then []
    else
      var last := rules[|rules| - 1];
      Provenance(m, rules[..|rules| - 1], regex) + seq(|RuleValues(m, last, regex)|, _ => last)
  }

  /** Every value comes from a rule of the list and is one of that rule's
      values. */
  lemma {:induction false} ProvenanceMembers(m: AuditMessage, rules: seq<ExtractionRule>, regex: RegexOracle)
    ensures forall i :: 0 <= i < |Provenance(m, rules, regex)| ==>
      Provenance(m, rules, regex)[i] in rules
      && ValuesOf(m, rules, regex)[i] in RuleValues(m, Provenance(m, rules, regex)[i], regex)
  {
    if rules != [] {
      var init := rules[..|rules| - 1];
      var last := rules[|rules| - 1];
      ProvenanceMembers(m, init, regex);
      var p := Provenance(m, rules, regex);
      var v := ValuesOf(m, rules, regex);
      var n := |Provenance(m, init, regex)|;
      forall i | 0 <= i < |p| ensures p[i] in rules && v[i] in RuleValues(m, p[i], regex) {
        if i < n {
          assert p[i] == Provenance(m, init, regex)[i] && v[i] == ValuesOf(m, init, regex)[i];
          assert p[i] in init;
        } else {
          assert p[i] == last && v[i] == RuleValues(m, last, regex)[i - n];
        }
      }
    }
  }

  /** Over rules in ascending `RuleOrder`, the rules behind successive values
      are in ascending `RuleOrder` too: all values of an earlier rule come
      before those of a later one. */
  lemma {:induction false} ProvenanceSorted(m: AuditMessage, rules: seq<ExtractionRule>, regex: RegexOracle)
    requires SortedBy(rules, RuleOrderKey)
    ensures SortedBy(Provenance(m, rules, regex), RuleOrderKey)
  {
    if rules != [] {
      var init := rules[..|rules| - 1];
      var last := rules[|rules| - 1];
      ProvenanceSorted(m, init, regex);
      ProvenanceMembers(m, init, regex);
      var p := Provenance(m, rules, regex);
      var n := |Provenance(m, init, regex)|;
      forall i, j | 0 <= i < j < |p| ensures RuleOrderKey(p[i]) <= RuleOrderKey(p[j]) {
        if j < n {
          assert p[i] == Provenance(m, init, regex)[i] && p[j] == Provenance(m, init, regex)[j];
        } else if i < n {
          assert p[i] == Provenance(m, init, regex)[i] && p[j] == last;
          assert p[i] in init;
          var k :| 0 <= k < |init| && init[k] == p[i];
          assert rules[k] == p[i];
        } else {
          assert p[i] == last && p[j] == last;
        }
      }
    }
  }

  /** Every value of a rule carries that rule's metadata. */
  lemma RuleValuesCopyRule(m: AuditMessage, rule: ExtractionRule, regex: RegexOracle, v: ExtractedValue)
    requires v in RuleValues(m, rule, regex)
    ensures v.ruleId == rule.id && v.ruleName == rule.ruleName
    ensures v.regexPattern == rule.regexPattern && v.sourceField == rule.sourceField
  {
  }

  /** Whatever the input order, the extracted values come rule by rule in
      ascending `RuleOrder`: the rule behind each value is one of the input
      rules, the value copies its id, name, pattern and source field, and
      the rules behind successive values have non-decreasing `RuleOrder`. */
  lemma ExtractionProvenance(m: AuditMessage, rules: seq<ExtractionRule>, regex: RegexOracle)
    ensures SortedBy(Provenance(m, SortBy(rules, RuleOrderKey), regex), RuleOrderKey)
    ensures forall i :: 0 <= i < |Extraction(m, rules, regex)| ==>
      var origin := Provenance(m, SortBy(rules, RuleOrderKey), regex)[i];
      var v := Extraction(m, rules, regex)[i];
      origin in rules && v.ruleId == origin.id && v.ruleName == origin.ruleName
      && v.regexPattern == origin.regexPattern && v.sourceField == origin.sourceField
  {
    var s := SortBy(rules, RuleOrderKey);
    SortByIsSortedPermutation(rules, RuleOrderKey);
    ProvenanceSorted(m, s, regex);
    ProvenanceMembers(m, s, regex);
    var p := Provenance(m, s, regex);
    forall i | 0 <= i < |Extraction(m, rules, regex)|
      ensures p[i] in rules && Extraction(m, rules, regex)[i].ruleId == p[i].id
        && Extraction(m, rules, regex)[i].ruleName == p[i].ruleName
        && Extraction(m, rules, regex)[i].regexPattern == p[i].regexPattern
        && Extraction(m, rules, regex)[i].sourceField == p[i].sourceField
    {
      assert p[i] in multiset(s);
      RuleValuesCopyRule(m, p[i], regex, Extraction(m, rules, regex)[i]);
    }
  }

  // ---------------------------------------------------------------------
  // Counting
  // ---------------------------------------------------------------------

  /** How many matches a rule yields: 0 when it is skipped or its regex
      fails, otherwise its match count. */
  function MatchCount(m: AuditMessage, rule: ExtractionRule, regex: RegexOracle): nat {
    var source := SourceValue(m, rule.sourceField);
    if source.None? || source.value == "" then 0
    else match regex(rule.regexPattern, source.value)
      case Ok(ms) => |ms|
      case _ => 0
  }

  /** The sum of the match counts of the rules, in input order. */
  function TotalMatches(m: AuditMessage, rules: seq<ExtractionRule>, regex: RegexOracle): nat {
    if rules == [] then 0 else MatchCount(m, rules[0], regex) + TotalMatches(m, rules[1..], regex)
  }

  lemma {:induction false} TotalMatchesInsert(m: AuditMessage, x: ExtractionRule, s: seq<ExtractionRule>, regex: RegexOracle)
    ensures TotalMatches(m, Insert(x, s, RuleOrderKey), regex) == MatchCount(m, x, regex) + TotalMatches(m, s, regex)
  {
    if s != [] && RuleOrderKey(x) > RuleOrderKey(s[0]) {
      TotalMatchesInsert(m, x, s[1..], regex);
      assert Insert(x, s, RuleOrderKey)[1..] == Insert(x, s[1..], RuleOrderKey);
    } else {
      assert Insert(x, s, RuleOrderKey)[1..] == s;
    }
  }

  lemma {:induction false} TotalMatchesSorted(m: AuditMessage, rules: seq<ExtractionRule>, regex: RegexOracle)
    ensures TotalMatches(m, SortBy(rules, RuleOrderKey), regex) == TotalMatches(m, rules, regex)
  {
    if rules != [] {
      TotalMatchesSorted(m, rules[1..], regex);
      TotalMatchesInsert(m, rules[0], SortBy(rules[1..], RuleOrderKey), regex);
    }
  }

  lemma {:induction false} TotalMatchesSnoc(m: AuditMessage, rules: seq<ExtractionRule>, regex: RegexOracle)
    requires rules != []
    ensures TotalMatches(m, rules, regex) ==
      TotalMatches(m, rules[..|rules| - 1], regex) + MatchCount(m, rules[|rules| - 1], regex)
  {
    if |rules| > 1 {
      TotalMatchesSnoc(m, rules[1..], regex);
      assert rules[1..][..|rules[1..]| - 1] == rules[..|rules| - 1][1..];
    }
  }

  lemma {:induction false} ValuesOfLength(m: AuditMessage, rules: seq<ExtractionRule>, regex: RegexOracle)
    ensures |ValuesOf(m, rules, regex)| == TotalMatches(m, rules, regex)
  {
    if rules != [] {
      ValuesOfLength(m, rules[..|rules| - 1], regex);
      TotalMatchesSnoc(m, rules, regex);
    }
  }

  /** One value per match: the number of values is the sum of the match
      counts of the applied rules, whatever order the rules came in. */
  lemma ExtractionLength(m: AuditMessage, rules: seq<ExtractionRule>, regex: RegexOracle)
    ensures |Extraction(m, rules, regex)| == TotalMatches(m, rules, regex)
  {
    ValuesOfLength(m, SortBy(rules, RuleOrderKey), regex);
    TotalMatchesSorted(m, rules, regex);
  }

  // ---------------------------------------------------------------------
  // Skipped rules and ignored flags
  // ---------------------------------------------------------------------

  /** A rule whose source is null or empty (an unknown field included), or
      whose pattern is invalid or times out, contributes nothing. */
  lemma SkippedRuleYieldsNothing(m: AuditMessage, r: ExtractionRule, regex: RegexOracle)
    requires SourceValue(m, r.sourceField).None? || SourceValue(m, r.sourceField) == Some("")
      || regex(r.regexPattern, SourceValue(m, r.sourceField).value).Invalid?
      || regex(r.regexPattern, SourceValue(m, r.sourceField).value).Timeout?
    ensures RuleValues(m, r, regex) == []
  {
  }

  /** A rule that contributes nothing does not stop the rules after it:
      they contribute exactly what they would without it. */
  lemma UnproductiveRuleSkipped(m: AuditMessage, a: seq<ExtractionRule>, r: ExtractionRule, b: seq<ExtractionRule>, regex: RegexOracle)
    requires RuleValues(m, r, regex) == []
    ensures ValuesOf(m, a + [r] + b, regex) == ValuesOf(m, a, regex) + ValuesOf(m, b, regex)
  {
    var ar := a + [r];
    ValuesOfSnoc(m, a, r, regex);
    assert ValuesOf(m, a, regex) + [] == ValuesOf(m, a, regex);
    assert ValuesOf(m, ar, regex) == ValuesOf(m, a, regex);
    ValuesOfConcat(m, ar, b, regex);
  }

  /** The flags a rule may differ in without the extraction noticing. */
  predicate SameButFlags(x: ExtractionRule, y: ExtractionRule) {
    x.(isRequired := y.isRequired, isActive := y.isActive) == y
  }

  lemma {:induction false} ValuesOfIgnoresFlags(m: AuditMessage, rules: seq<ExtractionRule>, f: ExtractionRule -> ExtractionRule, regex: RegexOracle)
    requires forall x :: SameButFlags(x, f(x))
    ensures ValuesOf(m, Map(rules, f), regex) == ValuesOf(m, rules, regex)
  {
    if rules != [] {
      var init := rules[..|rules| - 1];
      assert Map(rules, f)[..|rules| - 1] == Map(init, f);
      ValuesOfIgnoresFlags(m, init, f, regex);
      var last := rules[|rules| - 1];
      assert SameButFlags(last, f(last));
      assert RuleValues(m, f(last), regex) == RuleValues(m, last, regex);
    }
  }

  /** `IsRequired` (and `IsActive`) play no part: changing them on any rules
      leaves the extraction as it was. */
  lemma FlagsIgnored(m: AuditMessage, rules: seq<ExtractionRule>, f: ExtractionRule -> ExtractionRule, regex: RegexOracle)
    requires forall x :: SameButFlags(x, f(x))
    ensures Extraction(m, Map(rules, f), regex) == Extraction(m, rules, regex)
  {
    assert forall y :: RuleOrderKey(f(y)) == RuleOrderKey(y) by {
      forall y ensures RuleOrderKey(f(y)) == RuleOrderKey(y) {
        assert SameButFlags(y, f(y));
      }
    }
    SortByMap(rules, RuleOrderKey, f);
    ValuesOfIgnoresFlags(m, SortBy(rules, RuleOrderKey), f, regex);
  }
}
