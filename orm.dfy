/** Display form of a rule-set record (`RuleTable.FormatSchema` in src/core/orm.ts). */
module Orm {
  import opened Types
  import opened Text

  /** The number a string of decimal digits denotes, most significant first. */
  function Value(digits: string): nat
    requires forall i :: 0 <= i < |digits| ==> '0' <= digits[i] <= '9'
    decreases |digits|
  {
    if |digits| == 0 then 0
    else Value(digits[..|digits| - 1]) * 10 + (digits[|digits| - 1] as int - '0' as int)
  }

  /** Decimal digits of a natural number, as a template literal prints an id:
      the digits denote `n`, with no leading zero. */
  function DecimalString(n: nat): (r: string)
    ensures |r| > 0
    ensures forall i :: 0 <= i < |r| ==> '0' <= r[i] <= '9'
    ensures Value(r) == n
    ensures r[0] != '0' || n == 0
    decreases n
  {
    var digit := "0123456789"[n % 10];
    assert digit as int - '0' as int == n % 10;
    if n < 10 then [digit]
    else
      var r := DecimalString(n / 10) + [digit];
      assert r[..|r| - 1] == DecimalString(n / 10);
      r
  }

  function ModeLabel(mode: Mode): string {
    if mode == Whitelist then "白名单" else "黑名单"
  }

  function EnabledLabel(enabled: bool): string {
    if enabled then "开启" else "关闭"
  }

  /** `[id] [name - mode - enabled]`. */
  function Header(schema: RuleSet): string {
    "[" + DecimalString(schema.id) + "] [" + schema.name + " - "
      + ModeLabel(schema.mode) + " - " + EnabledLabel(schema.enabled) + "]"
  }

  /** `rule.map(FormatCondition)`, with the condition formatter as a parameter. */
  function FormatRule(rule: Rule, formatCondition: Condition -> string): (r: seq<string>)
    ensures |r| == |rule|
    ensures forall i :: 0 <= i < |rule| ==> r[i] == formatCondition(rule[i])
  {
    seq(|rule|, i requires 0 <= i < |rule| => formatCondition(rule[i]))
  }

  /** The rule part shown by a full listing. */
  function RulePart(rule: Rule, formatCondition: Condition -> string): string {
    "规则: [" + (if |rule| > 0 then Join(FormatRule(rule, formatCondition), ",") else "无") + "]"
  }

  /** `FormatSchema(schema, full)`: the header alone, or header and rule part
      joined by a single space. */
  function FormatSchema(schema: RuleSet, full: bool, formatCondition: Condition -> string): (r: string)
    ensures !full ==> r == Header(schema)
    ensures full ==> r == Header(schema) + " " + RulePart(schema.rule, formatCondition)
    ensures IsPrefix(Header(schema), r)
  {
    var messages := [Header(schema)] + (if full then [RulePart(schema.rule, formatCondition)] else []);
    JoinAppend([Header(schema)], RulePart(schema.rule, formatCondition), " ");
    assert Header(schema) + " " + RulePart(schema.rule, formatCondition)
      == Header(schema) + (" " + RulePart(schema.rule, formatCondition));
    Join(messages, " ")
  }

  /** The mode label is 白名单 exactly for whitelists; the state label is 开启
      exactly for enabled sets. */
  lemma LabelsAreFaithful(mode: Mode, enabled: bool)
    ensures ModeLabel(mode) == "白名单" <==> mode == Whitelist
    ensures EnabledLabel(enabled) == "开启" <==> enabled
  {
    assert "黑名单"[0] != "白名单"[0];
    assert "关闭"[0] != "开启"[0];
  }

  /** A full listing of a set without conditions reads `规则: [无]`. */
  lemma FormatEmptyRule(schema: RuleSet, formatCondition: Condition -> string)
    requires schema.rule == []
    ensures FormatSchema(schema, true, formatCondition) == Header(schema) + " 规则: [无]"
  {
  }

  /** Appending a condition shows it last in the rule part, after a comma when
      there were conditions before, and leaves the earlier text unchanged. */
  lemma FormatAfterAppend(schema: RuleSet, c: Condition, formatCondition: Condition -> string)
    ensures FormatSchema(schema.(rule := schema.rule + [c]), true, formatCondition)
         == Header(schema) + " 规则: ["
            + (if |schema.rule| > 0 then Join(FormatRule(schema.rule, formatCondition), ",") + "," else "")
            + formatCondition(c) + "]"
  {
    var rule := schema.rule;
    var appended := schema.(rule := rule + [c]);
    assert Header(appended) == Header(schema);
    var shown := FormatRule(rule + [c], formatCondition);
    assert shown == FormatRule(rule, formatCondition) + [formatCondition(c)];
    if |rule| > 0 {
      JoinAppend(FormatRule(rule, formatCondition), formatCondition(c), ",");
      assert RulePart(rule + [c], formatCondition)
          == "规则: [" + (Join(FormatRule(rule, formatCondition), ",") + "," + formatCondition(c)) + "]";
    } else {
      assert shown == [formatCondition(c)];
      assert RulePart(rule + [c], formatCondition) == "规则: [" + formatCondition(c) + "]";
    }
  }
}
