/** The value types shared by the whole plugin: conditions, rule sets and the
    attributes of an incoming event. */
module Types {

  datatype Option<+T> = None | Some(value: T) {
    /** The value, or `default` when absent (the `?? default` of the source). */
    function GetOr(default: T): T {
      match this
      case Some(v) => v
      case None => default
    }
  }

  /** The attribute of an event a condition inspects. */
  datatype ConditionType = Platform | Guild | User | Message

  /** How a condition compares the attribute with its target. `In` and `Nin`
      are substring tests, not set membership. */
  datatype Compare = Eq | Neq | In | Nin

  datatype Condition = Condition(kind: ConditionType, compare: Compare, target: string)

  /** A rule is an ordered list of conditions. */
  type Rule = seq<Condition>

  datatype Mode = Whitelist | Blacklist

  /** One persisted rule set. `id` is the primary key the store assigns;
      timestamps are integers on an abstract clock. */
  datatype RuleSet = RuleSet(
    id: nat,
    name: string,
    mode: Mode,
    rule: Rule,
    enabled: bool,
    createdAt: int,
    updatedAt: int)

  /** The event attributes the plugin reads. Guild, user, message content and
      channel may be absent from the event. */
  datatype Session = Session(
    platform: string,
    guildId: Option<string>,
    userId: Option<string>,
    content: Option<string>,
    channelType: Option<int>)
}
