/** Evaluation of one condition against an event (src/resolver.ts). */
module Resolver {
  import opened Types
  import opened Text

  /** `compare_string`: the four comparison operators. */
  function CompareString(source: string, compare: Compare, target: string): (r: bool)
    ensures compare == Eq ==> (r <==> source == target)
    ensures compare == Neq ==> (r <==> source != target)
    ensures compare == In ==> (r <==> IsSubstring(target, source))
    ensures compare == Nin ==> (r <==> !IsSubstring(target, source))
  {
    IncludesIsSubstring(source, target);
    match compare
    case Eq => source == target
    case Neq => source != target
    case In => Includes(source, target)
    case Nin => !Includes(source, target)
  }

  /** The attribute a condition type names, with absent attributes read as "". */
  function Attribute(session: Session, kind: ConditionType): string {
    match kind
    case Platform => session.platform
    case Guild => session.guildId.GetOr("")
    case User => session.userId.GetOr("")
    case Message => session.content.GetOr("")
  }

  /** `WhiteList.resolve`: the condition holds of the event. */
  function WhiteListResolve(session: Session, condition: Condition): (r: bool)
    ensures r == CompareString(Attribute(session, condition.kind), condition.compare, condition.target)
  {
    match condition.kind
    case Platform => CompareString(session.platform, condition.compare, condition.target)
    case Guild => CompareString(session.guildId.GetOr(""), condition.compare, condition.target)
    case User => CompareString(session.userId.GetOr(""), condition.compare, condition.target)
    case Message => CompareString(session.content.GetOr(""), condition.compare, condition.target)
  }

  /** `BlackList.resolve`: every branch negates the comparison. */
  function BlackListResolve(session: Session, condition: Condition): (r: bool)
    ensures r == !CompareString(Attribute(session, condition.kind), condition.compare, condition.target)
  {
    match condition.kind
    case Platform => !CompareString(session.platform, condition.compare, condition.target)
    case Guild => !CompareString(session.guildId.GetOr(""), condition.compare, condition.target)
    case User => !CompareString(session.userId.GetOr(""), condition.compare, condition.target)
    case Message => !CompareString(session.content.GetOr(""), condition.compare, condition.target)
  }

  /** `neq` is exactly the negation of `eq`, and `nin` of `in`. */
  lemma NegatedOperators(source: string, target: string)
    ensures CompareString(source, Neq, target) == !CompareString(source, Eq, target)
    ensures CompareString(source, Nin, target) == !CompareString(source, In, target)
  {
  }

  /** `in` with an empty target always holds and `nin` never does. */
  lemma EmptyTargetIncluded(source: string)
    ensures CompareString(source, In, "")
    ensures !CompareString(source, Nin, "")
  {
    assert IsPrefix("", source);
  }

  /** The blacklist resolver is the complement of the whitelist resolver. */
  lemma BlackListIsComplement(session: Session, condition: Condition)
    ensures BlackListResolve(session, condition) == !WhiteListResolve(session, condition)
  {
  }

  /** A missing guild, user or message is compared as the empty string. */
  lemma AbsentAttributeIsEmpty(session: Session, compare: Compare, target: string)
    ensures session.guildId.None? ==>
      WhiteListResolve(session, Condition(Guild, compare, target)) == CompareString("", compare, target)
    ensures session.userId.None? ==>
      WhiteListResolve(session, Condition(User, compare, target)) == CompareString("", compare, target)
    ensures session.content.None? ==>
      WhiteListResolve(session, Condition(Message, compare, target)) == CompareString("", compare, target)
  {
  }

  /** Two events that agree on the selected attribute get the same verdict,
      whatever their other attributes. */
  lemma DependsOnSelectedAttribute(s1: Session, s2: Session, condition: Condition)
    requires Attribute(s1, condition.kind) == Attribute(s2, condition.kind)
    ensures WhiteListResolve(s1, condition) == WhiteListResolve(s2, condition)
    ensures BlackListResolve(s1, condition) == BlackListResolve(s2, condition)
  {
  }
}
