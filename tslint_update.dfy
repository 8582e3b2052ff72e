/**
 * The rule aggregator of the upgrade tool: the TSLint configuration handed to the fix task, which
 * enables every upgrade rule with the target version as its option.
 */
module TslintUpdate {

  /** The option list `[true, target]` of one enabled rule. */
  datatype RuleOption = RuleOption(enabled: bool, target: string)

  /** The configuration object: where the rules live, and each rule's options. */
  datatype TslintConfig = TslintConfig(rulesDirectory: seq<string>, rules: map<string, RuleOption>)

  /** The rules enabled for the upgrade, in the order the source lists them. */
  const UpgradeRules: seq<string> := [
    // Attribute selector update rules.
    "attribute-selectors-string-literal",
    "attribute-selectors-stylesheet",
    "attribute-selectors-template",
    // Class name update rules.
    "class-names-identifier",
    "class-names-identifier-misc",
    // CSS selectors update rules.
    "css-selectors-string-literal",
    "css-selectors-stylesheet",
    "css-selectors-template",
    // Element selector update rules.
    "element-selectors-string-literal",
    "element-selectors-stylesheet",
    "element-selectors-template",
    // Input name update rules.
    "input-names-stylesheet",
    "input-names-template",
    // Output name update rules.
    "output-names-template",
    // Property name update rules.
    "property-names-access",
    "property-names-misc",
    // Method call checks.
    "method-calls-check",
    // Class inheritance.
    "class-inheritance-check",
    "class-inheritance-misc",
    // Additional misc rules.
    "check-import-misc",
    "check-template-misc"
  ]

  /**
   * The directories holding the rules, relative to the directory of the update schematic (the
   * source joins each onto that directory to make it absolute).
   */
  const RulesDirectory: seq<string> := [
    "rules/",
    "rules/attribute-selectors",
    "rules/class-names",
    "rules/class-inheritance",
    "rules/input-names",
    "rules/output-names",
    "rules/css-selectors",
    "rules/element-selectors",
    "rules/property-names",
    "rules/method-calls"
  ]

  /** No name occurs twice in `s`. */
  predicate Distinct(s: seq<string>) {
    forall i, j :: 0 <= i < j < |s| ==> s[i] != s[j]
  }

  /** The `reduce` callback applied to each name in turn: sets `result[ruleName] = [true, target]`. */
  function EnableRules(names: seq<string>, target: string, result: map<string, RuleOption>): map<string, RuleOption>
    decreases |names|
  {
    if names == [] then result
    else EnableRules(names[1..], target, result[names[0] := RuleOption(true, target)])
  }

  /** The configuration for `target`: every upgrade rule enabled with `target` as its option. */
  function CreateTslintConfig(target: string): (c: TslintConfig)
    ensures c.rulesDirectory == RulesDirectory
    ensures c.rules.Keys == set name | name in UpgradeRules
    ensures forall name :: name in c.rules ==> c.rules[name] == RuleOption(true, target)
  {
    EnableRulesSpec(UpgradeRules, target, map[]);
    TslintConfig(RulesDirectory, EnableRules(UpgradeRules, target, map[]))
  }

  /**
   * The fold keeps the keys it started with, adds exactly the listed names, sets every listed name
   * to `[true, target]`, and leaves every other entry as it was.
   */
  lemma {:induction false} EnableRulesSpec(names: seq<string>, target: string, result: map<string, RuleOption>)
    ensures EnableRules(names, target, result).Keys == result.Keys + set name | name in names
    ensures forall name :: name in names ==> EnableRules(names, target, result)[name] == RuleOption(true, target)
    ensures forall name :: name in result && name !in names ==> EnableRules(names, target, result)[name] == result[name]
    decreases |names|
  {
    if names != [] {
      var next := result[names[0] := RuleOption(true, target)];
      EnableRulesSpec(names[1..], target, next);
      assert (set name | name in names) == {names[0]} + set name | name in names[1..];
      forall name | name in names
        ensures EnableRules(names, target, result)[name] == RuleOption(true, target)
      {
        if name !in names[1..] {
          assert name == names[0];
        }
      }
    }
  }

  /** A list of distinct names has as many distinct names as entries. */
  lemma {:induction false} DistinctCardinality(s: seq<string>)
    requires Distinct(s)
    ensures |set name | name in s| == |s|
  {
    if s != [] {
      assert Distinct(s[1..]) by {
        forall i, j | 0 <= i < j < |s[1..]| ensures s[1..][i] != s[1..][j] {
          assert s[1..][i] == s[i + 1] && s[1..][j] == s[j + 1];
        }
      }
      DistinctCardinality(s[1..]);
      assert (set name | name in s) == {s[0]} + set name | name in s[1..];
      assert s[0] !in s[1..] by {
        forall k | 0 <= k < |s[1..]| ensures s[1..][k] != s[0] {
          assert s[1..][k] == s[k + 1];
        }
      }
    }
  }

  /** The 21 upgrade rule names are pairwise distinct. */
  lemma UpgradeRulesDistinct()
    ensures |UpgradeRules| == 21 && Distinct(UpgradeRules)
  {
  }

  /** The fold loses no entry: the configuration enables exactly 21 rules. */
  lemma ConfigEnablesEveryRule(target: string)
    ensures |CreateTslintConfig(target).rules| == |UpgradeRules| == 21
    ensures forall i :: 0 <= i < |UpgradeRules| ==> UpgradeRules[i] in CreateTslintConfig(target).rules
  {
    UpgradeRulesDistinct();
    DistinctCardinality(UpgradeRules);
    assert CreateTslintConfig(target).rules.Keys == set name | name in UpgradeRules;
  }

  /**
   * Two targets give configurations with the same directories and the same rule names; they differ
   * only in the target carried by each rule's options.
   */
  lemma ConfigsDifferOnlyInTarget(t1: string, t2: string)
    ensures CreateTslintConfig(t1).rulesDirectory == CreateTslintConfig(t2).rulesDirectory
    ensures CreateTslintConfig(t1).rules.Keys == CreateTslintConfig(t2).rules.Keys
    ensures forall name :: name in CreateTslintConfig(t1).rules ==>
      CreateTslintConfig(t1).rules[name].target == t1 && CreateTslintConfig(t2).rules[name].target == t2
    ensures t1 == t2 <==> CreateTslintConfig(t1) == CreateTslintConfig(t2)
  {
    assert "check-import-misc" in UpgradeRules;
    if CreateTslintConfig(t1) == CreateTslintConfig(t2) {
      assert CreateTslintConfig(t1).rules["check-import-misc"].target == t1;
    }
  }
}
