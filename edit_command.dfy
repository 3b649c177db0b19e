/** The edit-mode slash commands (src/command/edit.ts): a wrapper that checks
    the user and the session, fetches the record through the cache, runs one
    command on it in place, persists the command's partial update and then
    renews the lease. */
module EditCommand {
  import opened Types
  import opened Database
  import opened EditMode
  import opened EditOps
  import Orm

  /** `EditModeOutput`: the messages (None when the help page is shown instead)
      and the update to persist (`markUpdate`). */
  datatype Output = Output(messages: Option<seq<Msg>>, markUpdate: Option<Delta>)

  /** A command invocation with the arguments the framework passed. */
  datatype Call =
    | ExitCall
    | DropCall(indexArgs: seq<int>)
    | AddCall(args: seq<string>)
    | RenameCall(args: seq<string>)
    | ModeCall
    | SwitchCall
    | ShowCall

  /** The argument-count check of each command: the decoded command, or None
      when the help page is shown instead. */
  function Decode(call: Call): (op: Option<EditOp>)
    ensures op.None? <==>
      (call.DropCall? && |call.indexArgs| != 1) || (call.AddCall? && |call.args| != 3)
      || (call.RenameCall? && |call.args| != 1)
  {
    match call
    case ExitCall => Some(OpExit)
    case DropCall(args) => if |args| == 1 then Some(OpDrop(args[0])) else None
    case AddCall(args) => if |args| == 3 then Some(OpAdd(args[0], args[1], args[2])) else None
    case RenameCall(args) => if |args| == 1 then Some(OpRename(args[0])) else None
    case ModeCall => Some(OpMode)
    case SwitchCall => Some(OpSwitch)
    case ShowCall => Some(OpShow)
  }

  /** The record after a callback, its output, and whether it showed the help page. */
  datatype Response = Response(schema: RuleSet, output: Output, help: bool)

  /** What a callback does, given the record it was handed. */
  function Respond(schema: RuleSet, call: Call, messages: seq<Msg>,
                   tables: Tables): (r: Response)
    ensures r.help ==> r.schema == schema && r.output.markUpdate.None?
    ensures r.output.markUpdate.None? ==> r.schema == schema
  {
    match Decode(call)
    case None =>
      Response(schema, Output(if call.AddCall? then Some([TypeOptions, CompareOptions]) else None, None), true)
    case Some(op) =>
      var o := Apply(schema, op, tables.types, tables.compares);
      DeltaIsTheChange(schema, op, tables.types, tables.compares);
      Response(o.schema, Output(Some(messages + Report(o, tables.formatCondition)), o.delta), false)
  }

  method Exit(cache: Cache, messages: seq<Msg>, tables: Tables, now: int) returns (out: Output, help: bool)
    modifies cache
    ensures Response(cache.value, out, help) == Respond(old(cache.value), ExitCall, messages, tables)
    ensures forall later :: later >= now ==> cache.Expired(later)
  {
    out := Output(Some(messages + [Result(Exited)]), None);
    cache.MarkExpired(now);
    help := false;
  }

  method Drop(cache: Cache, messages: seq<Msg>, tables: Tables, args: seq<int>) returns (out: Output, help: bool)
    modifies cache
    ensures Response(cache.value, out, help) == Respond(old(cache.value), DropCall(args), messages, tables)
    ensures cache.expiresAt == old(cache.expiresAt)
  {
    if |args| != 1 {
      return Output(None, None), true;
    }
    help := false;
    var index := args[0];
    if index < 0 || index >= |cache.value.rule| {
      return Output(Some(messages + [Result(OutOfRange)]), None), false;
    }
    cache.value := cache.value.(rule := cache.value.rule[..index] + cache.value.rule[index + 1..]);
    out := Output(Some(messages + [Result(Dropped(index))]), Some(RuleDelta(cache.value.rule)));
  }

  method Add(cache: Cache, messages: seq<Msg>, tables: Tables, args: seq<string>) returns (out: Output, help: bool)
    modifies cache
    ensures Response(cache.value, out, help) == Respond(old(cache.value), AddCall(args), messages, tables)
    ensures cache.expiresAt == old(cache.expiresAt)
  {
    if |args| != 3 {
      return Output(Some([TypeOptions, CompareOptions]), None), true;
    }
    help := false;
    if args[0] !in tables.types {
      return Output(Some(messages + [Result(BadType)]), None), false;
    }
    var kind := tables.types[args[0]];
    if args[1] !in tables.compares {
      return Output(Some(messages + [Result(BadCompare)]), None), false;
    }
    var compare := tables.compares[args[1]];
    var condition := Condition(kind, compare, args[2]);
    cache.value := cache.value.(rule := cache.value.rule + [condition]);
    out := Output(Some(messages + [Result(Added(condition))]), Some(RuleDelta(cache.value.rule)));
  }

  method Rename(cache: Cache, messages: seq<Msg>, tables: Tables, args: seq<string>) returns (out: Output, help: bool)
    modifies cache
    ensures Response(cache.value, out, help) == Respond(old(cache.value), RenameCall(args), messages, tables)
    ensures cache.expiresAt == old(cache.expiresAt)
  {
    if |args| != 1 {
      return Output(None, None), true;
    }
    cache.value := cache.value.(name := args[0]);
    out := Output(Some(messages + [Result(Renamed(args[0]))]), Some(NameDelta(cache.value.name)));
    help := false;
  }

  method Mode(cache: Cache, messages: seq<Msg>, tables: Tables) returns (out: Output, help: bool)
    modifies cache
    ensures Response(cache.value, out, help) == Respond(old(cache.value), ModeCall, messages, tables)
    ensures cache.expiresAt == old(cache.expiresAt)
  {
    if cache.value.mode == Whitelist {
      cache.value := cache.value.(mode := Blacklist);
    } else {
      cache.value := cache.value.(mode := Whitelist);
    }
    out := Output(Some(messages + [Result(ModeSwitched(cache.value.mode))]), Some(ModeDelta(cache.value.mode)));
    help := false;
  }

  method Switch(cache: Cache, messages: seq<Msg>, tables: Tables) returns (out: Output, help: bool)
    modifies cache
    ensures Response(cache.value, out, help) == Respond(old(cache.value), SwitchCall, messages, tables)
    ensures cache.expiresAt == old(cache.expiresAt)
  {
    cache.value := cache.value.(enabled := !cache.value.enabled);
    out := Output(Some(messages + [Result(EnabledSwitched(cache.value.enabled))]), Some(EnabledDelta(cache.value.enabled)));
    help := false;
  }

  method Show(cache: Cache, messages: seq<Msg>, tables: Tables) returns (out: Output, help: bool)
    ensures Response(cache.value, out, help) == Respond(cache.value, ShowCall, messages, tables)
  {
    out := Output(Some(messages + [Result(Shown), Details(Orm.FormatSchema(cache.value, true, tables.formatCondition))]), None);
    help := false;
  }

  /** How the wrapper answers. */
  datatype Reply =
    | CannotVerifyUser
    | NotInEditMode
    | FetchFailed
    | Replied(help: bool, sent: Option<seq<Msg>>)

  /** Runs the callback of `call` on the cached record. */
  method Dispatch(cache: Cache, call: Call, messages: seq<Msg>, tables: Tables, now: int)
    returns (out: Output, help: bool)
    modifies cache
    ensures Response(cache.value, out, help) == Respond(old(cache.value), call, messages, tables)
    ensures call == ExitCall ==> forall t :: t >= now ==> cache.Expired(t)
    ensures call != ExitCall ==> cache.expiresAt == old(cache.expiresAt)
  {
    match call {
      case ExitCall => out, help := Exit(cache, messages, tables, now);
      case DropCall(args) => out, help := Drop(cache, messages, tables, args);
      case AddCall(args) => out, help := Add(cache, messages, tables, args);
      case RenameCall(args) => out, help := Rename(cache, messages, tables, args);
      case ModeCall => out, help := Mode(cache, messages, tables);
      case SwitchCall => out, help := Switch(cache, messages, tables);
      case ShowCall => out, help := Show(cache, messages, tables);
    }
  }

  /** `CommandWrapper` around one command. `user` is the verified user's key,
      None when the user cannot be verified. The clock is read at `now` for the
      session check and at `later` for the fetch, the update's timestamp and
      the lease renewal. */
  method Run(call: Call, user: Option<string>, reg: Registry, store: Store, now: int, later: int,
             tables: Tables) returns (reply: Reply)
    requires store.Valid()
    requires now <= later
    modifies reg.Slot(user), store
    ensures store.Valid()
    ensures user.None? ==> reply == CannotVerifyUser && unchanged(store)
    ensures user.Some? && !old(reg.Active(user.value, now)) ==>
      reply == NotInEditMode && unchanged(store) && unchanged(reg.Slot(user))
    ensures user.Some? && old(reg.Active(user.value, now)) ==>
      var cache := reg.entries[user.value];
      var got := old(cache.Peek(later, store));
      && (got.None? ==>
            reply == FetchFailed && unchanged(store) && cache.value == old(cache.value)
            && cache.expiresAt == old(cache.expiresAt))
      && (got.Some? ==>
            var r := Respond(got.value, call, [Editing(Orm.FormatSchema(got.value, false, tables.formatCondition))], tables);
            && cache.value == r.schema
            && reply == Replied(r.help, r.output.messages)
            && store.rows == (if r.output.markUpdate.Some?
                              then SetWhere(old(store.rows), got.value.id, r.output.markUpdate.value, later)
                              else old(store.rows))
            && (r.output.markUpdate.Some? ==> cache.expiresAt == later + cache.ttl)
            && (r.output.markUpdate.None? && call != ExitCall ==>
                  cache.expiresAt == (if old(cache.Expired(later)) then later + cache.ttl else old(cache.expiresAt)))
            && (call == ExitCall ==> forall t :: t >= later ==> cache.Expired(t)))
  {
    if user.None? {
      return CannotVerifyUser;
    }
    var key := user.value;
    if key !in reg.entries || reg.entries[key].Expired(now) {
      return NotInEditMode;
    }
    var cache := reg.entries[key];
    var schema := cache.Get(later, store);
    if schema.None? {
      return FetchFailed;
    }
    var messages := [Editing(Orm.FormatSchema(schema.value, false, tables.formatCondition))];
    var out, help := Dispatch(cache, call, messages, tables, later);
    if out.markUpdate.Some? {
      store.Set(schema.value.id, out.markUpdate.value, later);
      cache.Update(later);
    }
    reply := Replied(help, out.messages);
  }
}
