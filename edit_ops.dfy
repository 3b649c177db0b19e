/** What each edit command does to the record being edited and which partial
    update it asks to persist. The slash commands (src/command/edit.ts) and the
    plain-text commands (src/middleware/index.ts) both follow these semantics;
    they differ only in how arguments arrive and in their replies. */
module EditOps {
  import opened Types
  import opened Database
  import Orm

  /** An edit command with its arguments decoded. */
  datatype EditOp =
    | OpExit
    | OpDrop(index: int)
    | OpAdd(typeLabel: string, compareLabel: string, target: string)
    | OpRename(name: string)
    | OpMode
    | OpSwitch
    | OpShow

  /** What happened, as reported to the user. */
  datatype Status =
    | Exited
    | OutOfRange
    | Dropped(index: int)
    | BadType
    | BadCompare
    | Added(condition: Condition)
    | Renamed(name: string)
    | ModeSwitched(mode: Mode)
    | EnabledSwitched(enabled: bool)
    | Shown

  /** The edited record, the update to persist (`markUpdate`) and the status. */
  datatype Outcome = Outcome(schema: RuleSet, delta: Option<Delta>, status: Status)

  /** The collaborators the commands look up by name: the label tables that
      translate a user's type and compare words, and the condition formatter. */
  datatype Tables = Tables(
    types: map<string, ConditionType>,
    compares: map<string, Compare>,
    formatCondition: Condition -> string)

  /** One line of a reply. */
  datatype Msg =
    | Editing(header: string)
    | Result(status: Status)
    | Details(text: string)
    | TypeOptions
    | CompareOptions
    | HelpText

  /** The lines a command adds after the "now editing" header. */
  function Report(o: Outcome, formatCondition: Condition -> string): seq<Msg> {
    if o.status == Shown then [Result(Shown), Details(Orm.FormatSchema(o.schema, true, formatCondition))]
    else [Result(o.status)]
  }

  function Toggle(mode: Mode): (r: Mode)
    ensures r != mode
  {
    if mode == Whitelist then Blacklist else Whitelist
  }

  /** The conditions with the one at `index` taken out (`splice(index, 1)`). */
  function RemoveAt(rule: Rule, index: int): (r: Rule)
    requires 0 <= index < |rule|
    ensures |r| == |rule| - 1
    ensures forall j :: 0 <= j < index ==> r[j] == rule[j]
    ensures forall j :: index <= j < |r| ==> r[j] == rule[j + 1]
    ensures multiset(r) + multiset{rule[index]} == multiset(rule)
  {
    assert rule == rule[..index] + [rule[index]] + rule[index + 1..];
    rule[..index] + rule[index + 1..]
  }

  /** One edit command applied to the record. Type and compare labels are
      translated through the label tables. */
  function Apply(schema: RuleSet, op: EditOp,
                 typeLabels: map<string, ConditionType>, compareLabels: map<string, Compare>): (o: Outcome)
    ensures o.schema.id == schema.id
    ensures o.schema.createdAt == schema.createdAt && o.schema.updatedAt == schema.updatedAt
  {
    match op
    case OpExit => Outcome(schema, None, Exited)
    case OpDrop(index) =>
      if index < 0 || index >= |schema.rule| then Outcome(schema, None, OutOfRange)
      else
        var rule := RemoveAt(schema.rule, index);
        Outcome(schema.(rule := rule), Some(RuleDelta(rule)), Dropped(index))
    case OpAdd(typeLabel, compareLabel, target) =>
      if typeLabel !in typeLabels then Outcome(schema, None, BadType)
      else if compareLabel !in compareLabels then Outcome(schema, None, BadCompare)
      else
        var condition := Condition(typeLabels[typeLabel], compareLabels[compareLabel], target);
        var rule := schema.rule + [condition];
        Outcome(schema.(rule := rule), Some(RuleDelta(rule)), Added(condition))
    case OpRename(name) => Outcome(schema.(name := name), Some(NameDelta(name)), Renamed(name))
    case OpMode =>
      var mode := Toggle(schema.mode);
      Outcome(schema.(mode := mode), Some(ModeDelta(mode)), ModeSwitched(mode))
    case OpSwitch =>
      var enabled := !schema.enabled;
      Outcome(schema.(enabled := enabled), Some(EnabledDelta(enabled)), EnabledSwitched(enabled))
    case OpShow => Outcome(schema, None, Shown)
  }

  /** The stored row after the caller persists the outcome's update, if any. */
  function Persisted(row: RuleSet, delta: Option<Delta>, now: int): RuleSet {
    if delta.Some? then ApplyDelta(row, delta.value, now) else row
  }

  /** Two copies of a record agree on everything the commands can change. */
  predicate SameContent(a: RuleSet, b: RuleSet) {
    a.id == b.id && a.name == b.name && a.mode == b.mode && a.rule == b.rule && a.enabled == b.enabled
  }

  /** A `drop` outside `[0, length)` reports the range error and changes nothing. */
  lemma DropOutOfRange(schema: RuleSet, index: int, tl: map<string, ConditionType>, cl: map<string, Compare>)
    requires index < 0 || index >= |schema.rule|
    ensures Apply(schema, OpDrop(index), tl, cl) == Outcome(schema, None, OutOfRange)
  {
  }

  /** A `drop` inside the range removes exactly that condition, keeps the order
      of the others and asks to persist the new rule only. */
  lemma DropInRange(schema: RuleSet, index: int, tl: map<string, ConditionType>, cl: map<string, Compare>)
    requires 0 <= index < |schema.rule|
    ensures var o := Apply(schema, OpDrop(index), tl, cl);
      && |o.schema.rule| == |schema.rule| - 1
      && (forall j :: 0 <= j < index ==> o.schema.rule[j] == schema.rule[j])
      && (forall j :: index <= j < |o.schema.rule| ==> o.schema.rule[j] == schema.rule[j + 1])
      && multiset(o.schema.rule) + multiset{schema.rule[index]} == multiset(schema.rule)
      && o.schema == schema.(rule := o.schema.rule)
      && o.delta == Some(RuleDelta(o.schema.rule))
  {
  }

  /** An `add` with an unknown type or compare label changes nothing. */
  lemma AddRejected(schema: RuleSet, t: string, c: string, target: string,
                    tl: map<string, ConditionType>, cl: map<string, Compare>)
    requires t !in tl || c !in cl
    ensures var o := Apply(schema, OpAdd(t, c, target), tl, cl);
      o.schema == schema && o.delta == None && o.status == (if t !in tl then BadType else BadCompare)
  {
  }

  /** A valid `add` appends the translated condition after the existing ones. */
  lemma AddAppends(schema: RuleSet, t: string, c: string, target: string,
                   tl: map<string, ConditionType>, cl: map<string, Compare>)
    requires t in tl && c in cl
    ensures var o := Apply(schema, OpAdd(t, c, target), tl, cl);
      && o.schema.rule == schema.rule + [Condition(tl[t], cl[c], target)]
      && o.schema.rule[..|schema.rule|] == schema.rule
      && o.schema == schema.(rule := o.schema.rule)
      && o.delta == Some(RuleDelta(o.schema.rule))
  {
  }

  /** `mode` and `switch` flip their own field only; doing either twice gives
      back the record. */
  lemma TogglesAreInvolutions(schema: RuleSet, tl: map<string, ConditionType>, cl: map<string, Compare>)
    ensures Apply(schema, OpMode, tl, cl).schema == schema.(mode := Toggle(schema.mode))
    ensures Apply(schema, OpSwitch, tl, cl).schema == schema.(enabled := !schema.enabled)
    ensures Apply(Apply(schema, OpMode, tl, cl).schema, OpMode, tl, cl).schema == schema
    ensures Apply(Apply(schema, OpSwitch, tl, cl).schema, OpSwitch, tl, cl).schema == schema
  {
  }

  /** `rename` changes the name and nothing else. */
  lemma RenameOnlyName(schema: RuleSet, name: string, tl: map<string, ConditionType>, cl: map<string, Compare>)
    ensures Apply(schema, OpRename(name), tl, cl) == Outcome(schema.(name := name), Some(NameDelta(name)), Renamed(name))
  {
  }

  /** `exit` and `show` change nothing and persist nothing. */
  lemma ExitAndShowPersistNothing(schema: RuleSet, tl: map<string, ConditionType>, cl: map<string, Compare>)
    ensures Apply(schema, OpExit, tl, cl) == Outcome(schema, None, Exited)
    ensures Apply(schema, OpShow, tl, cl) == Outcome(schema, None, Shown)
  {
  }

  /** The update describes the whole change: without one the record is
      unchanged, and with one applying it to the old record gives the new one. */
  lemma DeltaIsTheChange(schema: RuleSet, op: EditOp, tl: map<string, ConditionType>, cl: map<string, Compare>)
    ensures var o := Apply(schema, op, tl, cl);
      && (o.delta.None? ==> o.schema == schema)
      && (o.delta.Some? ==> ApplyDelta(schema, o.delta.value, schema.updatedAt) == o.schema)
  {
  }

  /** Persisting the update keeps the stored row in step with the edited copy:
      if they agreed before the command, they agree after it. */
  lemma PersistKeepsStoreInStep(stored: RuleSet, schema: RuleSet, op: EditOp, now: int,
                                tl: map<string, ConditionType>, cl: map<string, Compare>)
    requires SameContent(stored, schema)
    ensures var o := Apply(schema, op, tl, cl);
      SameContent(Persisted(stored, o.delta, now), o.schema)
  {
  }
}
