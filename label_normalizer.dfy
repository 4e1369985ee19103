/**
 * `normalize_label`: the first of seven substring rules that fires on the
 * lower-case line names its standard label; a line no rule fires on is
 * "UNKNOWN".
 */
module LabelNormalizer {
  import opened Strings

  /** The label of a line that no rule fires on. */
  const Unknown: string := "UNKNOWN"

  /** `normalize_label(line)`: the if/elif chain, applied to the lower-case line. */
  function NormalizeLabel(line: string): string {
    Chain(Lower(line))
  }

  /** The if/elif chain of `normalize_label`, in its order, on an already lower-cased line. */
  function Chain(lower: string): string {
    if Contains(lower, "total net sales") || Contains(lower, "net sales") then "Revenue"
    else if Contains(lower, "cost of sales") then "Cost of Revenue"
    else if Contains(lower, "gross margin") || Contains(lower, "gross profit") then "Gross Profit"
    else if Contains(lower, "operating income") then "Operating Income"
    else if Contains(lower, "operating expenses") then "Operating Expenses"
    else if Contains(lower, "net income") || Contains(lower, "net profit") || Contains(lower, "net earnings") then "Net Income"
    else if Contains(lower, "earnings per share") || Contains(lower, "eps") then "EPS"
    else Unknown
  }

  // ---------------------------------------------------------------------
  // The same chain as an ordered rule table
  // ---------------------------------------------------------------------

  /** One branch of the chain: the phrases any of which selects the label `name`. */
  datatype Rule = Rule(phrases: seq<string>, name: string)

  /** The branches of the chain, highest priority first. */
  const Rules: seq<Rule> := [
    Rule(["total net sales", "net sales"], "Revenue"),
    Rule(["cost of sales"], "Cost of Revenue"),
    Rule(["gross margin", "gross profit"], "Gross Profit"),
    Rule(["operating income"], "Operating Income"),
    Rule(["operating expenses"], "Operating Expenses"),
    Rule(["net income", "net profit", "net earnings"], "Net Income"),
    Rule(["earnings per share", "eps"], "EPS")
  ]

  /** Every label `normalize_label` can return. */
  const Labels: seq<string> := [
    "Revenue", "Cost of Revenue", "Gross Profit", "Operating Income",
    "Operating Expenses", "Net Income", "EPS", Unknown
  ]

  /** The rule fires on the lower-case line: one of its phrases occurs in it. */
  predicate Fires(rule: Rule, lower: string) {
    exists j :: 0 <= j < |rule.phrases| && Contains(lower, rule.phrases[j])
  }

  /** The label of the first rule of `rules` that fires, `Unknown` when none does. */
  function FirstMatch(rules: seq<Rule>, lower: string): string {
    if rules == [] then Unknown
    else if Fires(rules[0], lower) then rules[0].name
    else FirstMatch(rules[1..], lower)
  }

  /** The first match from rule `k` on: rule `k` if it fires, else the first match after it. */
  lemma FirstMatchStep(rules: seq<Rule>, k: nat, lower: string)
    requires k < |rules|
    ensures FirstMatch(rules[k..], lower)
         == if Fires(rules[k], lower) then rules[k].name else FirstMatch(rules[k + 1..], lower)
  {
    assert rules[k..][1..] == rules[k + 1..];
  }

  /** The first match from a one-phrase rule on. */
  lemma StepOne(rules: seq<Rule>, k: nat, a: string, name: string, lower: string)
    requires k < |rules| && rules[k] == Rule([a], name)
    ensures FirstMatch(rules[k..], lower)
         == if Contains(lower, a) then name else FirstMatch(rules[k + 1..], lower)
  {
    FirstMatchStep(rules, k, lower);
    assert rules[k].phrases[0] == a;
  }

  /** The first match from a two-phrase rule on. */
  lemma StepTwo(rules: seq<Rule>, k: nat, a: string, b: string, name: string, lower: string)
    requires k < |rules| && rules[k] == Rule([a, b], name)
    ensures FirstMatch(rules[k..], lower)
         == if Contains(lower, a) || Contains(lower, b) then name else FirstMatch(rules[k + 1..], lower)
  {
    FirstMatchStep(rules, k, lower);
    var ps := rules[k].phrases;
    assert ps[0] == a && ps[1] == b;
    if Fires(rules[k], lower) {
      var j :| 0 <= j < |ps| && Contains(lower, ps[j]);
      assert j == 0 || j == 1;
    }
  }

  /** The first match from a three-phrase rule on. */
  lemma StepThree(rules: seq<Rule>, k: nat, a: string, b: string, c: string, name: string, lower: string)
    requires k < |rules| && rules[k] == Rule([a, b, c], name)
    ensures FirstMatch(rules[k..], lower)
         == if Contains(lower, a) || Contains(lower, b) || Contains(lower, c) then name
            else FirstMatch(rules[k + 1..], lower)
  {
    FirstMatchStep(rules, k, lower);
    var ps := rules[k].phrases;
    assert ps[0] == a && ps[1] == b && ps[2] == c;
    if Fires(rules[k], lower) {
      var j :| 0 <= j < |ps| && Contains(lower, ps[j]);
      assert j == 0 || j == 1 || j == 2;
    }
  }

  /** The last four rules of the table, read in order. */
  lemma LaterRules(lower: string)
    ensures FirstMatch(Rules[3..], lower)
         == if Contains(lower, "operating income") then "Operating Income"
            else if Contains(lower, "operating expenses") then "Operating Expenses"
            else if Contains(lower, "net income") || Contains(lower, "net profit") || Contains(lower, "net earnings")
            then "Net Income"
            else if Contains(lower, "earnings per share") || Contains(lower, "eps") then "EPS"
            else Unknown
  {
    var r := Rules;
    StepOne(r, 3, "operating income", "Operating Income", lower);
    StepOne(r, 4, "operating expenses", "Operating Expenses", lower);
    StepThree(r, 5, "net income", "net profit", "net earnings", "Net Income", lower);
    StepTwo(r, 6, "earnings per share", "eps", "EPS", lower);
    assert r[7..] == [];
  }

  /** The chain is the rule table read in order. */
  lemma ChainIsFirstMatch(lower: string)
    ensures Chain(lower) == FirstMatch(Rules, lower)
  {
    var r := Rules;
    StepTwo(r, 0, "total net sales", "net sales", "Revenue", lower);
    StepOne(r, 1, "cost of sales", "Cost of Revenue", lower);
    StepTwo(r, 2, "gross margin", "gross profit", "Gross Profit", lower);
    LaterRules(lower);
    assert r[0..] == r;
  }

  /** `normalize_label` is the rule table read in order. */
  lemma NormalizeLabelIsFirstMatch(line: string)
    ensures NormalizeLabel(line) == FirstMatch(Rules, Lower(line))
  {
    ChainIsFirstMatch(Lower(line));
  }

  // ---------------------------------------------------------------------
  // First match by priority, for any table
  // ---------------------------------------------------------------------

  /** Some rule of `rules` fires. */
  predicate SomeFires(rules: seq<Rule>, lower: string) {
    exists k :: 0 <= k < |rules| && Fires(rules[k], lower)
  }

  /**
   * When no rule fires the result is `Unknown`; otherwise it is the label of
   * a rule that fires after no earlier rule fired.
   */
  lemma {:induction false} FirstMatchIsFirst(rules: seq<Rule>, lower: string)
    ensures !SomeFires(rules, lower) ==> FirstMatch(rules, lower) == Unknown
    ensures SomeFires(rules, lower) ==>
              exists k :: 0 <= k < |rules| && Fires(rules[k], lower)
                          && (forall i :: 0 <= i < k ==> !Fires(rules[i], lower))
                          && FirstMatch(rules, lower) == rules[k].name
  {
    if rules != [] && !Fires(rules[0], lower) {
      var rest := rules[1..];
      FirstMatchIsFirst(rest, lower);
      if SomeFires(rest, lower) {
        var k :| 0 <= k < |rest| && Fires(rest[k], lower)
                 && (forall i :: 0 <= i < k ==> !Fires(rest[i], lower))
                 && FirstMatch(rest, lower) == rest[k].name;
        assert forall i :: 1 <= i < k + 1 ==> rules[i] == rest[i - 1];
        assert rules[k + 1] == rest[k];
      } else {
        assert forall k :: 1 <= k < |rules| ==> rules[k] == rest[k - 1];
      }
    } else if rules != [] {
      assert Fires(rules[0], lower);
    }
  }

  /** A rule that fires after no earlier rule fired decides the label. */
  lemma {:induction false} FirstFiringRuleWins(rules: seq<Rule>, lower: string, k: nat)
    requires k < |rules| && Fires(rules[k], lower)
    requires forall i :: 0 <= i < k ==> !Fires(rules[i], lower)
    ensures FirstMatch(rules, lower) == rules[k].name
  {
    if k > 0 {
      assert !Fires(rules[0], lower);
      FirstFiringRuleWins(rules[1..], lower, k - 1);
    }
  }

  // ---------------------------------------------------------------------
  // Properties of normalize_label
  // ---------------------------------------------------------------------

  /**
   * The label is "UNKNOWN" exactly when no rule fires; otherwise it is the
   * label of the first rule that fires, and no earlier rule fires.
   */
  lemma NormalizeLabelByPriority(line: string)
    ensures NormalizeLabel(line) == Unknown <==> !SomeFires(Rules, Lower(line))
    ensures NormalizeLabel(line) != Unknown ==>
              exists k :: 0 <= k < |Rules| && Fires(Rules[k], Lower(line))
                          && (forall i :: 0 <= i < k ==> !Fires(Rules[i], Lower(line)))
                          && NormalizeLabel(line) == Rules[k].name
  {
    NormalizeLabelIsFirstMatch(line);
    FirstMatchIsFirst(Rules, Lower(line));
    assert forall k :: 0 <= k < |Rules| ==> Rules[k].name != Unknown;
  }

  /** The label is always one of the eight labels. */
  lemma NormalizeLabelClosed(line: string)
    ensures NormalizeLabel(line) in Labels
  {
  }

  /** Different rules have different labels, none of them "UNKNOWN". */
  lemma RuleLabelsDistinct()
    ensures forall i, j :: 0 <= i < j < |Rules| ==> Rules[i].name != Rules[j].name
    ensures forall k :: 0 <= k < |Rules| ==> Rules[k].name != Unknown && Rules[k].name in Labels
  {
  }

  /** A phrase that occurs in a longer phrase occurs wherever the longer one does. */
  lemma ContainsWithin(s: string, big: string, small: string)
    requires Contains(s, big) && Contains(big, small)
    ensures Contains(s, small)
  {
    var i :| 0 <= i <= |s| && big <= s[i..];
    var j :| 0 <= j <= |big| && small <= big[j..];
    assert small <= s[i + j..] by {
      forall k | 0 <= k < |small|
        ensures small[k] == s[i + j + k]
      {
        assert small[k] == big[j + k];
      }
    }
  }

  /**
   * The "total net sales" test adds nothing: every line that holds it also
   * holds "net sales", and any line holding "net sales" is "Revenue",
   * whatever else it mentions.
   */
  lemma NetSalesWins(line: string)
    ensures Contains(Lower(line), "total net sales") ==> Contains(Lower(line), "net sales")
    ensures Contains(Lower(line), "net sales") ==> NormalizeLabel(line) == "Revenue"
  {
    if Contains(Lower(line), "total net sales") {
      assert "net sales" <= "total net sales"[6..];
      ContainsWithin(Lower(line), "total net sales", "net sales");
    }
  }

  /** Lower-casing twice is lower-casing once. */
  lemma LowerIdempotent(s: string)
    ensures Lower(Lower(s)) == Lower(s)
  {
  }

  /** The tests are case-insensitive: a line and its lower-case form get the same label. */
  lemma NormalizeLabelIgnoresCase(line: string)
    ensures NormalizeLabel(Lower(line)) == NormalizeLabel(line)
  {
    LowerIdempotent(line);
  }

  /** A phrase longer than the line cannot occur in it. */
  lemma TooLongToOccur(s: string, sub: string)
    requires |sub| > |s|
    ensures !Contains(s, sub)
  {
  }

  /** A line mentioning "net sales" is "Revenue" even when it also mentions net income. */
  lemma NetSalesExample()
    ensures NormalizeLabel("Net sales and net income both rose") == "Revenue"
  {
    var line := "Net sales and net income both rose";
    assert "net sales" <= Lower(line)[0..];
    NetSalesWins(line);
  }

  /** "eps" matches inside another word: a line about steps is labelled "EPS". */
  lemma StepsExample()
    ensures NormalizeLabel("Steps 12") == "EPS"
  {
    var steps := Lower("Steps 12");
    assert "eps" <= steps[2..];
    TooLongToOccur(steps, "total net sales");
    TooLongToOccur(steps, "net sales");
    TooLongToOccur(steps, "cost of sales");
    TooLongToOccur(steps, "gross margin");
    TooLongToOccur(steps, "gross profit");
    TooLongToOccur(steps, "operating income");
    TooLongToOccur(steps, "operating expenses");
    TooLongToOccur(steps, "net income");
    TooLongToOccur(steps, "net profit");
    TooLongToOccur(steps, "net earnings");
  }
}
