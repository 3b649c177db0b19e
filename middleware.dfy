/** The two message middlewares (src/middleware/index.ts): `Message` runs the
    edit commands typed as plain text by a user in edit mode, and `Interceptor`
    decides whether an incoming message may go on. */
module Middleware {
  import opened Types
  import opened Text
  import opened Database
  import opened EditMode
  import opened EditOps
  import EditCommand
  import Orm

  /** The keys of `argvSizeMap`. */
  datatype Key = KExit | KDrop | KAdd | KRename | KMode | KSwitch | KShow | KHelp

  function KeyName(key: Key): string {
    match key
    case KExit => "exit"
    case KDrop => "drop"
    case KAdd => "add"
    case KRename => "rename"
    case KMode => "mode"
    case KSwitch => "switch"
    case KShow => "show"
    case KHelp => "help"
  }

  /** `argvSizeMap`: the number of arguments after the command word. */
  function ArgvSize(key: Key): nat {
    match key
    case KAdd => 3
    case KDrop => 1
    case KRename => 1
    case _ => 0
  }

  /** The order in which the keys are tried. */
  const KeyOrder: seq<Key> := [KExit, KDrop, KAdd, KRename, KMode, KSwitch, KShow, KHelp]

  /** The first key of `keys` that `content` starts with. */
  function FirstMatch(content: string, keys: seq<Key>): (r: Option<Key>)
    ensures r.Some? ==> r.value in keys && IsPrefix(KeyName(r.value), content)
    decreases |keys|
  {
    if |keys| == 0 then None
    else if IsPrefix(KeyName(keys[0]), content) then Some(keys[0])
    else FirstMatch(content, keys[1..])
  }

  /** The scan finds no key exactly when the text starts with none of them. */
  lemma {:induction false} FirstMatchNone(content: string, keys: seq<Key>)
    ensures FirstMatch(content, keys).None? <==> forall i :: 0 <= i < |keys| ==> !IsPrefix(KeyName(keys[i]), content)
    decreases |keys|
  {
    if |keys| > 0 && !IsPrefix(KeyName(keys[0]), content) {
      FirstMatchNone(content, keys[1..]);
      assert forall i :: 1 <= i < |keys| ==> keys[i] == keys[1..][i - 1];
    }
  }

  /** The command word and the arguments, as the key loop leaves them. */
  datatype Parsed = Parsed(command: Key, args: seq<string>)

  /** The command is the first key the text starts with, and the arguments the
      text split at spaces into at most one part more than that command takes;
      text matching no key gives `help` with no parts at all. */
  function Parse(content: string): (p: Parsed)
    ensures |p.args| <= ArgvSize(p.command) + 1
  {
    match FirstMatch(content, KeyOrder)
    case None => Parsed(KHelp, [])
    case Some(key) => Parsed(key, SplitLimit(content, ' ', ArgvSize(key) + 1))
  }

  /** The loop over the keys of `argvSizeMap`. */
  method SelectCommand(content: string) returns (command: Key, args: seq<string>)
    ensures Parsed(command, args) == Parse(content)
  {
    command, args := KHelp, [];
    var i := 0;
    while i < |KeyOrder|
      invariant 0 <= i <= |KeyOrder|
      invariant FirstMatch(content, KeyOrder) == FirstMatch(content, KeyOrder[i..])
    {
      var key := KeyOrder[i];
      if IsPrefix(KeyName(key), content) {
        command := key;
        args := SplitLimit(content, ' ', ArgvSize(key) + 1);
        break;
      }
      assert KeyOrder[i..][1..] == KeyOrder[i + 1..];
      i := i + 1;
    }
  }

  /** The key table lists every command once. */
  lemma KeyOrderListsEachKeyOnce()
    ensures forall k: Key :: k in KeyOrder
    ensures forall i, j :: 0 <= i < j < |KeyOrder| ==> KeyOrder[i] != KeyOrder[j]
  {
    forall k: Key ensures k in KeyOrder {
      match k
      case KExit => assert KeyOrder[0] == k;
      case KDrop => assert KeyOrder[1] == k;
      case KAdd => assert KeyOrder[2] == k;
      case KRename => assert KeyOrder[3] == k;
      case KMode => assert KeyOrder[4] == k;
      case KSwitch => assert KeyOrder[5] == k;
      case KShow => assert KeyOrder[6] == k;
      case KHelp => assert KeyOrder[7] == k;
    }
  }

  /** The argument counts of the text commands are the ones the slash commands
      accept, and the commands without arguments take none in either form. */
  lemma ArgvSizeAgreesWithSlash(indexArgs: seq<int>, args: seq<string>)
    ensures EditCommand.Decode(EditCommand.DropCall(indexArgs)).Some? <==> |indexArgs| == ArgvSize(KDrop)
    ensures EditCommand.Decode(EditCommand.AddCall(args)).Some? <==> |args| == ArgvSize(KAdd)
    ensures EditCommand.Decode(EditCommand.RenameCall(args)).Some? <==> |args| == ArgvSize(KRename)
    ensures ArgvSize(KExit) == ArgvSize(KMode) == ArgvSize(KSwitch) == ArgvSize(KShow) == ArgvSize(KHelp) == 0
  {
  }

  /** No key name is a prefix of another one. */
  lemma KeyNamesPrefixFree(a: Key, b: Key)
    requires a != b
    ensures !IsPrefix(KeyName(a), KeyName(b))
  {
    var x, y := KeyName(a), KeyName(b);
    if |x| <= |y| {
      assert y[..|x|][0] == y[0];
      if x[0] == y[0] {
        assert y[..|x|][1] == y[1];
      }
    }
  }

  /** Hence at most one key matches any text, and the order of the key table
      does not change which command is chosen. */
  lemma MatchingKeyIsUnique(content: string, a: Key, b: Key)
    requires IsPrefix(KeyName(a), content) && IsPrefix(KeyName(b), content)
    ensures a == b
  {
    var x, y := KeyName(a), KeyName(b);
    if a != b {
      if |x| <= |y| {
        assert y[..|x|] == content[..|x|];
        KeyNamesPrefixFree(a, b);
      } else {
        assert x[..|y|] == content[..|y|];
        KeyNamesPrefixFree(b, a);
      }
    }
  }

  /** The argument count is right exactly when the text has at least as many
      spaces as the command takes arguments; text that matches no key is
      always refused. Words beyond the count are dropped, and no argument
      contains a space. */
  lemma ArgumentCount(content: string)
    ensures var p := Parse(content);
      && (FirstMatch(content, KeyOrder).None? ==> |p.args| - 1 != ArgvSize(p.command))
      && (FirstMatch(content, KeyOrder).Some? ==>
            (|p.args| - 1 == ArgvSize(p.command) <==> Count(content, ' ') >= ArgvSize(p.command)))
      && (forall k :: 0 <= k < |p.args| ==> p.args[k] == Split(content, ' ')[k])
      && (forall k, j :: 0 <= k < |p.args| && 0 <= j < |p.args[k]| ==> p.args[k][j] != ' ')
  {
    SplitPartsFree(content, ' ');
  }

  /** The edit a well-formed text command asks for; `help` asks for none. The
      drop index is the second word as parsed by `parseIndex`. */
  function TextOp(p: Parsed, parseIndex: string -> int): (op: Option<EditOp>)
    requires |p.args| == ArgvSize(p.command) + 1
    ensures op.None? <==> p.command == KHelp
    ensures op == Some(OpExit) <==> p.command == KExit
  {
    match p.command
    case KExit => Some(OpExit)
    case KDrop => Some(OpDrop(parseIndex(p.args[1])))
    case KAdd => Some(OpAdd(p.args[1], p.args[2], p.args[3]))
    case KRename => Some(OpRename(p.args[1]))
    case KMode => Some(OpMode)
    case KSwitch => Some(OpSwitch)
    case KShow => Some(OpShow)
    case KHelp => None
  }

  /** The errors after which `Message` returns at once. */
  predicate IsRejection(status: Status) {
    status == OutOfRange || status == BadType || status == BadCompare
  }

  datatype MessageReply = PassedOn | WrongArgCount | Rejected(status: Status) | Sent(messages: seq<Msg>)

  /** What `Message` does with the text of a user in edit mode, given the
      record it fetched: the reply, the edited record, the update to persist
      and whether the session ends. */
  datatype Effect = Effect(reply: MessageReply, schema: RuleSet, delta: Option<Delta>, exits: bool)

  /** The effect of one decoded edit: a rejection changes nothing; otherwise
      the reply is the header and the command's report. */
  function OpEffect(schema: RuleSet, op: EditOp, header: Msg, tables: Tables): (e: Effect)
    ensures e.schema.id == schema.id
    ensures e.delta.None? ==> e.schema == schema
    ensures e.exits <==> op == OpExit
    ensures e.exits ==> e.delta.None?
    ensures !e.reply.Sent? ==> e.delta.None? && !e.exits
  {
    var o := Apply(schema, op, tables.types, tables.compares);
    DeltaIsTheChange(schema, op, tables.types, tables.compares);
    if IsRejection(o.status) then Effect(Rejected(o.status), schema, None, false)
    else Effect(Sent([header] + Report(o, tables.formatCondition)), o.schema, o.delta, op == OpExit)
  }

  function TextEffect(schema: RuleSet, header: Msg, content: string, tables: Tables, parseIndex: string -> int): (e: Effect)
    ensures e.schema.id == schema.id
    ensures e.delta.None? ==> e.schema == schema
    ensures e.exits ==> e.delta.None?
    ensures !e.reply.Sent? ==> e.delta.None? && !e.exits
  {
    var p := Parse(content);
    if |p.args| - 1 != ArgvSize(p.command) then Effect(WrongArgCount, schema, None, false)
    else if p.command == KHelp then Effect(Sent([header, HelpText]), schema, None, false)
    else OpEffect(schema, TextOp(p, parseIndex).value, header, tables)
  }

  /** The `switch (command)` of `Message` on a decoded edit command: edit the
      cached record in place and return the reply and the update to persist. */
  method Execute(cache: Cache, op: EditOp, header: Msg, tables: Tables, now: int)
    returns (reply: MessageReply, markUpdate: Option<Delta>)
    modifies cache
    ensures var e := OpEffect(old(cache.value), op, header, tables);
      && reply == e.reply && cache.value == e.schema && markUpdate == e.delta
      && (e.exits ==> forall t :: t >= now ==> cache.Expired(t))
      && (!e.exits ==> cache.expiresAt == old(cache.expiresAt))
  {
    ghost var outcome := Apply(cache.value, op, tables.types, tables.compares);
    var messages := [header];
    markUpdate := None;
    match op {
      case OpExit =>
        cache.MarkExpired(now);
        reply := Sent(messages + [Result(Exited)]);
      case OpDrop(index) =>
        if index < 0 || index >= |cache.value.rule| {
          return Rejected(OutOfRange), None;
        }
        cache.value := cache.value.(rule := cache.value.rule[..index] + cache.value.rule[index + 1..]);
        markUpdate := Some(RuleDelta(cache.value.rule));
        reply := Sent(messages + [Result(Dropped(index))]);
      case OpAdd(typeLabel, compareLabel, target) =>
        if typeLabel !in tables.types {
          return Rejected(BadType), None;
        }
        if compareLabel !in tables.compares {
          return Rejected(BadCompare), None;
        }
        var condition := Condition(tables.types[typeLabel], tables.compares[compareLabel], target);
        cache.value := cache.value.(rule := cache.value.rule + [condition]);
        markUpdate := Some(RuleDelta(cache.value.rule));
        reply := Sent(messages + [Result(Added(condition))]);
      case OpRename(name) =>
        cache.value := cache.value.(name := name);
        markUpdate := Some(NameDelta(cache.value.name));
        reply := Sent(messages + [Result(Renamed(name))]);
      case OpMode =>
        if cache.value.mode == Whitelist {
          cache.value := cache.value.(mode := Blacklist);
        } else {
          cache.value := cache.value.(mode := Whitelist);
        }
        markUpdate := Some(ModeDelta(cache.value.mode));
        reply := Sent(messages + [Result(ModeSwitched(cache.value.mode))]);
      case OpSwitch =>
        cache.value := cache.value.(enabled := !cache.value.enabled);
        markUpdate := Some(EnabledDelta(cache.value.enabled));
        reply := Sent(messages + [Result(EnabledSwitched(cache.value.enabled))]);
      case OpShow =>
        reply := Sent(messages + [Result(Shown), Details(Orm.FormatSchema(cache.value, true, tables.formatCondition))]);
    }
  }

  /** `Message` once the session is known to be live: fetch the record, parse
      and run the command on the cached copy, persist its update stamped `now`
      and renew the lease. */
  method Handle(cache: Cache, store: Store, content: string, now: int,
                tables: Tables, parseIndex: string -> int) returns (reply: MessageReply)
    requires store.Valid() && !cache.Expired(now)
    modifies cache, store
    ensures store.Valid()
    ensures var header := Editing(Orm.FormatSchema(old(cache.value), false, tables.formatCondition));
      var e := TextEffect(old(cache.value), header, content, tables, parseIndex);
      && reply == e.reply
      && cache.value == e.schema
      && store.rows == (if e.delta.Some? then SetWhere(old(store.rows), old(cache.value).id, e.delta.value, now)
                        else old(store.rows))
      && (e.delta.Some? ==> cache.expiresAt == now + cache.ttl)
      && (e.delta.None? && !e.exits ==> cache.expiresAt == old(cache.expiresAt))
      && (e.exits ==> forall t :: t >= now ==> cache.Expired(t))
  {
    var got := cache.Get(now, store);
    var schema := got.value;
    var header := Editing(Orm.FormatSchema(schema, false, tables.formatCondition));
    ghost var e := TextEffect(schema, header, content, tables, parseIndex);

    var command, args := SelectCommand(content);
    if |args| - 1 != ArgvSize(command) {
      assert e == Effect(WrongArgCount, schema, None, false);
      return WrongArgCount;
    }
    if command == KHelp {
      assert e == Effect(Sent([header, HelpText]), schema, None, false);
      return Sent([header, HelpText]);
    }
    var op := TextOp(Parsed(command, args), parseIndex).value;
    assert e == OpEffect(schema, op, header, tables);
    var markUpdate;
    reply, markUpdate := Execute(cache, op, header, tables, now);
    if markUpdate.Some? {
      store.Set(schema.id, markUpdate.value, now);
      cache.Update(now);
    }
  }

  /** `Message`: for a verified user (`user` is the key) with a live session,
      treat the text as an edit command; otherwise hand the message on. The
      lease check and the fetch read the clock at the same `now`. */
  method Message(user: Option<string>, reg: Registry, store: Store, content: string, now: int,
                 tables: Tables, parseIndex: string -> int) returns (reply: MessageReply)
    requires store.Valid()
    modifies reg.Slot(user), store
    ensures store.Valid()
    ensures user.None? || !old(reg.Active(user.value, now)) ==>
      reply == PassedOn && unchanged(store) && unchanged(reg.Slot(user))
    ensures user.Some? && old(reg.Active(user.value, now)) ==>
      var cache := reg.entries[user.value];
      var header := Editing(Orm.FormatSchema(old(cache.value), false, tables.formatCondition));
      var e := TextEffect(old(cache.value), header, content, tables, parseIndex);
      && reply == e.reply
      && cache.value == e.schema
      && store.rows == (if e.delta.Some? then SetWhere(old(store.rows), old(cache.value).id, e.delta.value, now)
                        else old(store.rows))
      && (e.delta.Some? ==> cache.expiresAt == now + cache.ttl)
      && (e.delta.None? && !e.exits ==> cache.expiresAt == old(cache.expiresAt))
      && (e.exits ==> forall t :: t >= now ==> cache.Expired(t))
  {
    if user.None? {
      return PassedOn;
    }
    var key := user.value;
    if key !in reg.entries || reg.entries[key].Expired(now) {
      return PassedOn;
    }
    reply := Handle(reg.entries[key], store, content, now, tables, parseIndex);
  }

  /** Text that starts with no command word is refused for its argument count
      and changes nothing: the default `help` command is only reached by a
      message that starts with "help". */
  lemma UnknownTextRefused(schema: RuleSet, header: Msg, content: string, tables: Tables, parseIndex: string -> int)
    requires forall k :: !IsPrefix(KeyName(k), content)
    ensures TextEffect(schema, header, content, tables, parseIndex) == Effect(WrongArgCount, schema, None, false)
  {
    FirstMatchNone(content, KeyOrder);
  }

  /** An edit command never answers with the help page. */
  lemma OpEffectIsNotHelp(schema: RuleSet, op: EditOp, header: Msg, tables: Tables)
    ensures OpEffect(schema, op, header, tables).reply != Sent([header, HelpText])
  {
    var e := OpEffect(schema, op, header, tables);
    if e.reply.Sent? {
      var o := Apply(schema, op, tables.types, tables.compares);
      assert e.reply.messages[1] == Report(o, tables.formatCondition)[0];
    }
  }

  /** "help" is read as the help command with its one part, the only key it
      can be since no key name is a prefix of another. */
  lemma HelpWordParsesAsHelp(content: string)
    requires IsPrefix("help", content)
    ensures Parse(content).command == KHelp && |Parse(content).args| == 1
  {
    var m := FirstMatch(content, KeyOrder);
    assert KeyOrder[7] == KHelp;
    FirstMatchNone(content, KeyOrder);
    MatchingKeyIsUnique(content, m.value, KHelp);
  }

  /** Text not starting with "help" never gets the help page. */
  lemma OnlyHelpWordShowsHelp(schema: RuleSet, header: Msg, content: string, tables: Tables, parseIndex: string -> int)
    requires !IsPrefix("help", content)
    ensures TextEffect(schema, header, content, tables, parseIndex).reply != Sent([header, HelpText])
  {
    var p := Parse(content);
    if |p.args| - 1 == ArgvSize(p.command) && p.command != KHelp {
      var op := TextOp(p, parseIndex).value;
      OpEffectIsNotHelp(schema, op, header, tables);
      assert TextEffect(schema, header, content, tables, parseIndex) == OpEffect(schema, op, header, tables);
    }
  }

  /** The help page is the reply exactly when the message starts with "help". */
  lemma HelpWordShowsHelp(schema: RuleSet, header: Msg, content: string, tables: Tables, parseIndex: string -> int)
    ensures TextEffect(schema, header, content, tables, parseIndex).reply == Sent([header, HelpText])
        <==> IsPrefix("help", content)
  {
    if IsPrefix("help", content) {
      HelpWordParsesAsHelp(content);
    } else {
      OnlyHelpWordShowsHelp(schema, header, content, tables, parseIndex);
    }
  }

  /** The slash command a well-formed text command corresponds to. */
  function SlashCall(p: Parsed, parseIndex: string -> int): (call: EditCommand.Call)
    requires |p.args| == ArgvSize(p.command) + 1 && p.command != KHelp
    ensures EditCommand.Decode(call) == TextOp(p, parseIndex)
  {
    match p.command
    case KExit => EditCommand.ExitCall
    case KDrop => EditCommand.DropCall([parseIndex(p.args[1])])
    case KAdd => EditCommand.AddCall(p.args[1..4])
    case KRename => EditCommand.RenameCall([p.args[1]])
    case KMode => EditCommand.ModeCall
    case KSwitch => EditCommand.SwitchCall
    case KShow => EditCommand.ShowCall
  }

  /** A decoded edit has the same effect on the record and the store through
      either front end. Their replies differ only on an error: the text command
      sends the error line alone, the slash command after the header. */
  lemma OpAgreesWithSlash(schema: RuleSet, call: EditCommand.Call, header: Msg, tables: Tables)
    requires EditCommand.Decode(call).Some?
    ensures var e := OpEffect(schema, EditCommand.Decode(call).value, header, tables);
      var r := EditCommand.Respond(schema, call, [header], tables);
      && !r.help
      && e.schema == r.schema
      && e.delta == r.output.markUpdate
      && (e.exits <==> call == EditCommand.ExitCall)
      && (e.reply.Sent? ==> r.output.messages == Some(e.reply.messages))
      && (e.reply.Rejected? ==> r.output.messages == Some([header, Result(e.reply.status)]))
      && (e.reply.Sent? || e.reply.Rejected?)
  {
    var o := Apply(schema, EditCommand.Decode(call).value, tables.types, tables.compares);
    if IsRejection(o.status) {
      assert [header] + Report(o, tables.formatCondition) == [header, Result(o.status)];
    }
  }

  /** Hence a well-formed text command edits the record and persists exactly
      as its slash counterpart does. */
  lemma TextAgreesWithSlash(schema: RuleSet, header: Msg, content: string, tables: Tables, parseIndex: string -> int)
    requires var p := Parse(content); |p.args| - 1 == ArgvSize(p.command) && p.command != KHelp
    ensures var p := Parse(content);
      var e := TextEffect(schema, header, content, tables, parseIndex);
      var r := EditCommand.Respond(schema, SlashCall(p, parseIndex), [header], tables);
      && !r.help
      && e.schema == r.schema
      && e.delta == r.output.markUpdate
      && (e.exits <==> p.command == KExit)
      && (e.reply.Sent? ==> r.output.messages == Some(e.reply.messages))
      && (e.reply.Rejected? ==> r.output.messages == Some([header, Result(e.reply.status)]))
  {
    var p := Parse(content);
    var op := TextOp(p, parseIndex).value;
    var call := SlashCall(p, parseIndex);
    assert EditCommand.Decode(call) == Some(op);
    OpAgreesWithSlash(schema, call, header, tables);
    var e := TextEffect(schema, header, content, tables, parseIndex);
    assert e == OpEffect(schema, op, header, tables);
  }

  /** Every enabled rule set's rule holds of the event. */
  ghost predicate EnabledRulesHold(rows: seq<RuleSet>, session: Session, computeRule: (Rule, Session) -> bool) {
    forall i :: 0 <= i < |rows| && rows[i].enabled ==> computeRule(rows[i].rule, session)
  }

  /** `Interceptor`: walk the rule sets in table order, skip disabled ones and
      stop the message at the first enabled one whose rule does not hold;
      otherwise let it go on. `computeRule` stands for `Type.ComputeRule`. */
  method Interceptor(store: Store, session: Session, computeRule: (Rule, Session) -> bool) returns (passed: bool)
    ensures passed <==> EnabledRulesHold(store.rows, session, computeRule)
  {
    var rules := store.rows;
    var i := 0;
    while i < |rules|
      invariant 0 <= i <= |rules|
      invariant EnabledRulesHold(rules[..i], session, computeRule)
    {
      var rule := rules[i];
      if !rule.enabled {
        i := i + 1;
        continue;
      }
      if !computeRule(rule.rule, session) {
        assert rules[i] == rule;
        return false;
      }
      i := i + 1;
    }
    assert rules[..i] == rules;
    passed := true;
  }

  /** The decision splits over the table: a message passes a table made of two
      parts exactly when it passes each; disabled sets and an empty table never
      stop it. */
  lemma {:induction false} InterceptionComposes(a: seq<RuleSet>, b: seq<RuleSet>, session: Session,
                                                computeRule: (Rule, Session) -> bool)
    ensures EnabledRulesHold(a + b, session, computeRule)
        <==> EnabledRulesHold(a, session, computeRule) && EnabledRulesHold(b, session, computeRule)
    ensures EnabledRulesHold([], session, computeRule)
    ensures forall r: RuleSet :: !r.enabled ==> EnabledRulesHold([r], session, computeRule)
  {
    if EnabledRulesHold(a + b, session, computeRule) {
      forall j | 0 <= j < |a| && a[j].enabled ensures computeRule(a[j].rule, session) {
        assert (a + b)[j] == a[j];
      }
      forall j | 0 <= j < |b| && b[j].enabled ensures computeRule(b[j].rule, session) {
        assert (a + b)[|a| + j] == b[j];
      }
    }
    if EnabledRulesHold(a, session, computeRule) && EnabledRulesHold(b, session, computeRule) {
      forall i | 0 <= i < |a + b| && (a + b)[i].enabled ensures computeRule((a + b)[i].rule, session) {
        if i < |a| {
          assert (a + b)[i] == a[i];
        } else {
          assert (a + b)[i] == b[i - |a|];
        }
      }
    }
  }
}
