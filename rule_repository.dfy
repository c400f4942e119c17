// `RuleRepository.GetRulesByTargetAsync`: the active rules of the target
// with a given name, joined with `targets`, ordered by `RULE_ORDER`. The
// SELECT list has no `IS_REQUIRED`, so every loaded rule is optional.
module RuleRepository {
  import opened Domain
  import opened Store
  import opened Seqs

  /** The object Dapper builds from one joined (rule, target) row. */
  function Load(r: RuleRow, t: Target): ExtractionRule {
    ExtractionRule(r.id, r.targetId, t.name, r.ruleName, r.sourceField, r.regexPattern, false, r.isActive, r.ruleOrder)
  }

  /** The join rows of one rule row: one per target row whose `ID` is the
      rule's `TARGET_ID` and whose `NAME` is `name`. */
  function JoinTargets(r: RuleRow, targets: seq<Target>, name: string): seq<ExtractionRule> {
    if targets == [] then []
    else (if targets[0].id == r.targetId && targets[0].name == name then [Load(r, targets[0])] else [])
         + JoinTargets(r, targets[1..], name)
  }

  /** The WHERE clause over the join, before ORDER BY. */
  function Selected(rules: seq<RuleRow>, targets: seq<Target>, name: string): seq<ExtractionRule> {
    if rules == [] then []
    else (if rules[0].isActive then JoinTargets(rules[0], targets, name) else [])
         + Selected(rules[1..], targets, name)
  }

  function GetRulesByTarget(t: Tables, name: string): seq<ExtractionRule> {
    SortBy(Selected(t.rules, t.targets, name), RuleOrderKey)
  }

  /** The join rows that satisfy the WHERE clause. */
  ghost predicate Joined(rules: seq<RuleRow>, targets: seq<Target>, name: string, x: ExtractionRule) {
    exists i, j :: 0 <= i < |rules| && 0 <= j < |targets| && rules[i].isActive
      && targets[j].id == rules[i].targetId && targets[j].name == name && x == Load(rules[i], targets[j])
  }

  lemma {:induction false} JoinTargetsMembers(r: RuleRow, targets: seq<Target>, name: string, x: ExtractionRule)
    ensures x in JoinTargets(r, targets, name) <==>
      exists j :: 0 <= j < |targets| && targets[j].id == r.targetId && targets[j].name == name && x == Load(r, targets[j])
  {
    if targets != [] {
      JoinTargetsMembers(r, targets[1..], name, x);
      if x in JoinTargets(r, targets[1..], name) {
        var j :| 0 <= j < |targets[1..]| && targets[1..][j].id == r.targetId && targets[1..][j].name == name
          && x == Load(r, targets[1..][j]);
        assert targets[j + 1] == targets[1..][j];
      }
      if exists j :: 0 <= j < |targets| && targets[j].id == r.targetId && targets[j].name == name && x == Load(r, targets[j]) {
        var j :| 0 <= j < |targets| && targets[j].id == r.targetId && targets[j].name == name && x == Load(r, targets[j]);
        if j > 0 {
          assert targets[1..][j - 1] == targets[j];
        }
      }
    }
  }

  lemma {:induction false} SelectedMembers(rules: seq<RuleRow>, targets: seq<Target>, name: string, x: ExtractionRule)
    ensures x in Selected(rules, targets, name) <==> Joined(rules, targets, name, x)
  {
    if rules != [] {
      SelectedMembers(rules[1..], targets, name, x);
      JoinTargetsMembers(rules[0], targets, name, x);
      if Joined(rules[1..], targets, name, x) {
        var i, j :| 0 <= i < |rules[1..]| && 0 <= j < |targets| && rules[1..][i].isActive
          && targets[j].id == rules[1..][i].targetId && targets[j].name == name && x == Load(rules[1..][i], targets[j]);
        assert rules[i + 1] == rules[1..][i];
      }
      if Joined(rules, targets, name, x) {
        var i, j :| 0 <= i < |rules| && 0 <= j < |targets| && rules[i].isActive
          && targets[j].id == rules[i].targetId && targets[j].name == name && x == Load(rules[i], targets[j]);
        if i > 0 {
          assert rules[1..][i - 1] == rules[i];
        }
      }
    }
  }

  /** The loaded rules are exactly the active rules joined with a target of
      that name, in ascending `RULE_ORDER`; each carries the requested
      name as `TargetName`, and none is required. */
  lemma GetRulesByTargetSpec(t: Tables, name: string, x: ExtractionRule)
    ensures x in GetRulesByTarget(t, name) <==> Joined(t.rules, t.targets, name, x)
    ensures x in GetRulesByTarget(t, name) ==> x.targetName == name && x.isActive && !x.isRequired
    ensures SortedBy(GetRulesByTarget(t, name), RuleOrderKey)
    ensures multiset(GetRulesByTarget(t, name)) == multiset(Selected(t.rules, t.targets, name))
  {
    var s := Selected(t.rules, t.targets, name);
    SortByIsSortedPermutation(s, RuleOrderKey);
    SelectedMembers(t.rules, t.targets, name, x);
    assert x in GetRulesByTarget(t, name) <==> x in multiset(GetRulesByTarget(t, name));
    assert x in s <==> x in multiset(s);
  }

  /** A name no target carries loads no rules. */
  lemma {:induction false} UnknownTargetLoadsNothing(t: Tables, name: string)
    requires forall j :: 0 <= j < |t.targets| ==> t.targets[j].name != name
    ensures GetRulesByTarget(t, name) == []
  {
    var s := Selected(t.rules, t.targets, name);
    if s != [] {
      SelectedMembers(t.rules, t.targets, name, s[0]);
    }
  }

  /** The active rule rows whose `TARGET_ID` is `target`'s id, loaded
      against `target`, in table order. */
  function OfTarget(rules: seq<RuleRow>, target: Target): seq<ExtractionRule> {
    if rules == [] then []
    else (if rules[0].isActive && rules[0].targetId == target.id then [Load(rules[0], target)] else [])
         + OfTarget(rules[1..], target)
  }

  /** With unique target names, one rule row joins at most the one target
      of that name. */
  lemma {:induction false} JoinTargetsUnique(r: RuleRow, targets: seq<Target>, name: string, k: nat)
    requires k < |targets| && targets[k].name == name
    requires forall j :: 0 <= j < |targets| && j != k ==> targets[j].name != name
    ensures JoinTargets(r, targets, name) == if r.targetId == targets[k].id then [Load(r, targets[k])] else []
  {
    if k == 0 {
      JoinTargetsNone(r, targets[1..], name);
    } else {
      assert targets[0].name != name;
      forall j | 0 <= j < |targets[1..]| && j != k - 1
        ensures targets[1..][j].name != name
      {
        assert targets[1..][j] == targets[j + 1];
      }
      JoinTargetsUnique(r, targets[1..], name, k - 1);
    }
  }

  lemma {:induction false} JoinTargetsNone(r: RuleRow, targets: seq<Target>, name: string)
    requires forall j :: 0 <= j < |targets| ==> targets[j].name != name
    ensures JoinTargets(r, targets, name) == []
  {
    if targets != [] {
      assert targets[0].name != name;
      forall j | 0 <= j < |targets[1..]|
        ensures targets[1..][j].name != name
      {
        assert targets[1..][j] == targets[j + 1];
      }
      JoinTargetsNone(r, targets[1..], name);
    }
  }

  lemma {:induction false} SelectedOfTarget(rules: seq<RuleRow>, targets: seq<Target>, name: string, k: nat)
    requires k < |targets| && targets[k].name == name
    requires forall j :: 0 <= j < |targets| && j != k ==> targets[j].name != name
    ensures Selected(rules, targets, name) == OfTarget(rules, targets[k])
  {
    if rules != [] {
      JoinTargetsUnique(rules[0], targets, name, k);
      SelectedOfTarget(rules[1..], targets, name, k);
    }
  }

  /** With the unique `NAME` column, the load of an existing target's rules
      holds each of its active rule rows exactly once (no row twice, none
      missing), in `RULE_ORDER`. */
  lemma LoadsEachRuleOnce(t: Tables, k: nat)
    requires UniqueTargetNames(t.targets)
    requires k < |t.targets|
    ensures var loaded := GetRulesByTarget(t, t.targets[k].name);
      && multiset(loaded) == multiset(OfTarget(t.rules, t.targets[k]))
      && SortedBy(loaded, RuleOrderKey)
  {
    var name := t.targets[k].name;
    forall j | 0 <= j < |t.targets| && j != k
      ensures t.targets[j].name != name
    {
      if j < k {
        assert t.targets[j].name != t.targets[k].name;
      } else {
        assert t.targets[k].name != t.targets[j].name;
      }
    }
    SelectedOfTarget(t.rules, t.targets, name, k);
    SortByIsSortedPermutation(Selected(t.rules, t.targets, name), RuleOrderKey);
  }
}
