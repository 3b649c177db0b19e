/** The commands available outside edit mode (src/command/normal.ts): list,
    create and delete rule sets, and enter edit mode on one of them. */
module NormalCommand {
  import opened Types
  import opened Database
  import opened EditMode
  import Orm

  /** The lines of the `list` reply: a title, then "无" or one full listing per rule set. */
  function ListMessages(rows: seq<RuleSet>, formatCondition: Condition -> string): (lines: seq<string>)
    ensures |lines| >= 2 && lines[0] == "拦截器列表:"
    ensures |rows| == 0 ==> lines == ["拦截器列表:", "无"]
    ensures |rows| > 0 ==> |lines| == |rows| + 1
    ensures |rows| > 0 ==> forall i :: 0 <= i < |rows| ==> lines[i + 1] == Orm.FormatSchema(rows[i], true, formatCondition)
  {
    ["拦截器列表:"]
      + if |rows| == 0 then ["无"]
        else seq(|rows|, i requires 0 <= i < |rows| => Orm.FormatSchema(rows[i], true, formatCondition))
  }

  /** `new <name>`: an empty name creates nothing; otherwise a whitelist with no
      conditions, enabled, stamped `now`, gets the next id. */
  method New(store: Store, name: string, now: int) returns (created: Option<nat>)
    requires store.Valid()
    modifies store
    ensures store.Valid()
    ensures name == "" ==> created.None? && unchanged(store)
    ensures name != "" ==> created.Some?
    ensures created.Some? ==>
      && old(store.Lookup(created.value)).None?
      && store.Lookup(created.value) == Some(RuleSet(created.value, name, Whitelist, [], true, now, now))
      && store.rows == old(store.rows) + [RuleSet(created.value, name, Whitelist, [], true, now, now)]
  {
    if name == "" {
      return None;
    }
    var id := store.Create(RuleSet(0, name, Whitelist, [], true, now, now));
    created := Some(id);
  }

  datatype DeleteReply = Missing(id: nat) | Deleted(id: nat, name: string)

  /** `delete <id>`: report a missing id, or remove that rule set. */
  method Delete(store: Store, id: nat) returns (reply: DeleteReply)
    requires store.Valid()
    modifies store
    ensures store.Valid()
    ensures old(store.Lookup(id)).None? ==> reply == Missing(id) && unchanged(store)
    ensures old(store.Lookup(id)).Some? ==>
      && reply == Deleted(id, old(store.Lookup(id)).value.name)
      && store.Lookup(id).None?
      && store.rows == Without(old(store.rows), id)
    ensures forall other :: other != id ==> store.Lookup(other) == old(store.Lookup(other))
  {
    var rule := store.Find(id);
    if rule.None? {
      return Missing(id);
    }
    var schema := rule.value;
    store.Remove(id);
    reply := Deleted(schema.id, schema.name);
  }

  datatype EditReply = NotFound(id: nat) | Unverified | AlreadyEditing | Entered(id: nat)

  /** `edit <id>`: open an edit session on rule set `id` for the user with key
      `user` (None when the user cannot be verified). A user with a live
      session keeps it; otherwise a new cache holding the record, renewed from
      the store by id, replaces whatever entry the key had. */
  method Edit(reg: Registry, store: Store, id: nat, user: Option<string>, now: int) returns (reply: EditReply)
    modifies reg
    ensures reply == NotFound(id) <==> store.Lookup(id).None?
    ensures store.Lookup(id).Some? && user.None? ==> reply == Unverified
    ensures store.Lookup(id).Some? && user.Some? ==>
      (reply == AlreadyEditing <==> old(reg.Active(user.value, now)))
    ensures !reply.Entered? ==> reg.entries == old(reg.entries)
    ensures reply.Entered? ==>
      && reply == Entered(id) && user.Some? && store.Lookup(id).Some?
      && reg.entries.Keys == old(reg.entries.Keys) + {user.value}
      && (forall k :: k in old(reg.entries) && k != user.value ==> reg.entries[k] == old(reg.entries[k]))
      && var cache := reg.entries[user.value];
         && fresh(cache)
         && cache.value == store.Lookup(id).value
         && cache.recordId == id && cache.ttl == EditModeTTL
         && cache.expiresAt == now + EditModeTTL
         && reg.Active(user.value, now)
  {
    var rules := store.Find(id);
    if rules.None? {
      return NotFound(id);
    }
    if user.None? {
      return Unverified;
    }
    var key := user.value;
    if key in reg.entries && !reg.entries[key].Expired(now) {
      return AlreadyEditing;
    }
    var cache := new Cache(rules.value, EditModeTTL, id, now);
    reg.entries := reg.entries[key := cache];
    reply := Entered(id);
  }
}
