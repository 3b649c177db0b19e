# koishi-plugin-interceptor, modelled in Dafny

This is a model of the core of the Koishi plugin `koishi-plugin-interceptor`. The plugin has two halves:

- **Interception.** The plugin keeps a table of rule sets. Each rule set has an id, a name, a whitelist/blacklist mode, a list of conditions and an enabled flag. Every incoming message is checked against the rule sets. A condition compares one attribute of the event with a target string, using `eq`, `neq`, `in` or `nin`. The attribute is the platform, the guild id, the user id or the message text.
- **Editing.** An administrator in a private chat can list, create and delete rule sets. They can also open an *edit session* on one rule set. The session is a per-user, 600-second cache around the record. While it is live, slash commands (`exit`, `drop`, `add`, `rename`, `mode`, `switch`, `show`) and the same commands typed as plain text edit the cached copy in place. Each edit persists its one-field update with a fresh `updatedAt` and renews the lease.

The Dafny modules follow the source files:

| module | file | source |
|---|---|---|
| `Types` | types.dfy | the records and enumerations of src/type.ts and src/core/orm.ts |
| `Text` | text.dfy | the JavaScript string operations the code relies on: `startsWith`, `includes`, `split(sep, limit)`, `join` |
| `Resolver` | resolver.dfy | src/resolver.ts |
| `Orm` | orm.dfy | `RuleTable.FormatSchema` of src/core/orm.ts |
| `Database` | database.dfy | the rule table: a class over the rows, in creation order, with an auto-incremented primary key |
| `Gate` | gate.dfy | the private-chat administrator filter of src/index.ts |
| `EditMode` | edit_mode.dfy | `EditModeTTL`, `EditModeMap` and the expiring cache (`TTLCache`) |
| `EditOps` | edit_ops.dfy | what each edit command does to the record, shared by both front ends |
| `EditCommand` | edit_command.dfy | src/command/edit.ts |
| `NormalCommand` | normal_command.dfy | src/command/normal.ts |
| `Middleware` | middleware.dfy | src/middleware/index.ts |

How state is modelled:

- **Cache and registry.** A `Cache` is a class with the record, the lease end `expiresAt` and the id its refresh reads back. The registry maps a user key to a cache.
- **Store.** The store is a class whose `rows` the commands reassign.
- **Time.** The current time is an integer parameter. `CommandWrapper` reads the clock twice: once for `cache.expired` and once inside `cache.get()`. The model gives it two instants, `now <= later`, so that the "failed to fetch" branch is reachable.
- **Collaborators passed as parameters.** `Type.User` becomes `Option<string>` (the key, or None when the user is invalid). The reverse label maps, `Type.FormatCondition` and `Type.ComputeRule` are parameters, as is the conversion of the text drop index.

## Model

| member | source | states |
|---|---|---|
| Text.IsPrefixPointwise | src/middleware/index.ts:48 | `startsWith` holds exactly when the text is at least as long as the prefix and agrees with it position by position |
| Text.Includes | src/resolver.ts:80-83 | `includes` never finds a target longer than the source, and always finds one the source starts with |
| Text.IncludesIsSubstring | src/resolver.ts:80-83 | the left-to-right scan behind `includes` is true exactly when the target occurs at some position of the source |
| Text.JoinAppend | src/core/orm.ts:80-94 | joining a list with one more part appends the separator and that part |
| Text.Split | src/middleware/index.ts:50 | a string splits into one more part than it has separators |
| Text.JoinSplit | src/middleware/index.ts:50 | joining the parts of a split with the separator gives back the string |
| Text.SplitPartsFree | src/middleware/index.ts:50 | no part of a split contains the separator |
| Text.SplitLimit | src/middleware/index.ts:50 | `split(sep, limit)` is the first `limit` parts of the full split, and never more |
| Resolver.CompareString | src/resolver.ts:70-85 | `eq` is equality, `neq` inequality, `in` substring containment and `nin` its negation |
| Resolver.WhiteListResolve | src/resolver.ts:8-37 | the condition's comparison applied to the attribute its type selects, absent attributes read as "" |
| Resolver.BlackListResolve | src/resolver.ts:39-68 | the negation of that comparison for every type |
| Resolver.NegatedOperators | src/resolver.ts:75-84 | `neq` is the negation of `eq`, and `nin` of `in`, on all inputs |
| Resolver.EmptyTargetIncluded | src/resolver.ts:80-83 | `in ""` always holds and `nin ""` never does |
| Resolver.BlackListIsComplement | src/resolver.ts:8-68 | the blacklist verdict is the negation of the whitelist verdict for every event and condition |
| Resolver.AbsentAttributeIsEmpty | src/resolver.ts:17-34 | a missing guild, user or message compares as the empty string |
| Resolver.DependsOnSelectedAttribute | src/resolver.ts:8-68 | two events that agree on the selected attribute get the same verdict from either resolver |
| Orm.DecimalString | src/core/orm.ts:81 | the rendered id is a non-empty string of decimal digits that denotes the id, with no leading zero |
| Orm.FormatSchema | src/core/orm.ts:79-95 | the short form is the header; the full form is the header, one space, then the rule part; the header is always a prefix |
| Orm.LabelsAreFaithful | src/core/orm.ts:81-83 | the mode label is 白名单 exactly for whitelists, and the state label is 开启 exactly for enabled rule sets |
| Orm.FormatEmptyRule | src/core/orm.ts:87-91 | a rule set without conditions lists its rule as "无" |
| Orm.FormatAfterAppend | src/core/orm.ts:87-91 | adding a condition extends the listed conditions by its formatted text after a comma |
| Database.ApplyDelta | src/command/edit.ts:64-72 | the partial update sets its one field and `updatedAt`, and keeps id, `createdAt` and the other fields |
| Database.IndexOf | src/command/normal.ts:54-59 | the position of the first row with the id, or -1 when no row has it |
| Database.FirstWithId | src/command/normal.ts:54-59 | `get(table, { id })[0]`: None exactly when no row has the id, otherwise a row of the table with that id |
| Database.SetWhere | src/command/edit.ts:65-72 | every row with the id gets the update, every other row is kept, order and length unchanged |
| Database.Without | src/command/normal.ts:60 | the rows without that id, and only those |
| Database.LookupAfterSet | src/command/edit.ts:65-72 | with unique ids, the update shows at that id and no other lookup changes |
| Database.LookupUnique | src/core/orm.ts:36-42 | with strictly increasing ids, looking up a row's id finds that row |
| Database.WithoutIncreasing | src/core/orm.ts:36-42 | removing rows keeps the ids strictly increasing |
| Database.LookupAfterRemove | src/command/normal.ts:60 | after removal the id is gone and every other lookup is unchanged |
| Database.Store.constructor | src/core/orm.ts:36-42 | a new table is empty, keeps its key invariant and will hand out ids from the start |
| Database.WithoutIdsAbove | src/command/normal.ts:60 | removal keeps every remaining id above any bound the old ids were above |
| Database.ConsIncreasing | src/core/orm.ts:36-42 | a row whose id is below every id of an increasing table can head it |
| Database.Store.Find | src/command/normal.ts:54 | the loop returns the first row with the id, or None |
| Database.Store.Create | src/command/normal.ts:47 | the new row gets a fresh id, is appended and can be looked up; the key invariant is kept |
| Database.Store.Set | src/command/edit.ts:65-72 | the table becomes `SetWhere` of the old one; that id's row is updated and every other lookup is unchanged |
| Database.Store.Remove | src/command/normal.ts:60 | the table becomes `Without` of the old one; the id is gone and every other lookup is unchanged |
| Gate.SomeAdminMatches | src/index.ts:26-29 | some listed administrator has the event's platform and user id |
| Gate.AdminGate | src/index.ts:20-30 | only channel type 1 passes, and there exactly the events of a listed administrator |
| Gate.NoAdminsNoAccess | src/index.ts:26-29 | with no administrators configured nothing passes |
| Gate.GateIgnoresOrder | src/index.ts:26-29 | reordering the administrator list does not change the verdict |
| EditMode.Cache.constructor | src/command/normal.ts:82-92 | a new cache holds the record, remembers its id and TTL, and expires `ttl` after creation |
| EditMode.Cache.Get | src/command/edit.ts:52 | while live it yields the cached record and changes nothing; once expired it yields a re-read of the record by id, which replaces the value and starts a new lease |
| EditMode.Cache.Update | src/command/edit.ts:73 | the lease restarts at `now` and the value is kept |
| EditMode.Cache.MarkExpired | src/command/edit.ts:84 | the cache is expired from `now` on and the value is kept |
| EditMode.Registry.constructor | src/core/global/index.ts:6 | `EditModeMap` starts without entries |
| EditMode.Registry.Slot | src/core/global/index.ts:6 | a command may touch at most one cache, one the map holds, and none for an unverified user |
| EditMode.Registry.Active | src/command/edit.ts:47-48 | `cache && !cache.expired`: a live entry is the user's one slot and was live at every earlier instant |
| EditMode.ExpiryIsPermanent | src/command/normal.ts:77-78 | `cache.expired` is monotone in time: once expired, expired at every later instant |
| EditOps.Toggle | src/command/edit.ts:188-192 | the mode flips to the other one |
| EditOps.RemoveAt | src/command/edit.ts:108 | `splice(index, 1)` drops exactly the condition at `index` and keeps the others in order |
| EditOps.Apply | src/command/edit.ts:81-223 | an edit never changes the record's id or timestamps |
| EditOps.DropOutOfRange | src/command/edit.ts:103-107 | an index outside `[0, length)` reports the range error and changes nothing |
| EditOps.DropInRange | src/command/edit.ts:108-113 | an index inside the range removes that condition alone and persists only the new rule |
| EditOps.AddRejected | src/command/edit.ts:139-148 | an unknown type label, or else an unknown compare label, is reported and changes nothing |
| EditOps.AddAppends | src/command/edit.ts:149-158 | a valid `add` appends the translated condition after the existing ones and persists only the rule |
| EditOps.TogglesAreInvolutions | src/command/edit.ts:182-212 | `mode` and `switch` flip only their own field; applying either twice restores the record |
| EditOps.RenameOnlyName | src/command/edit.ts:162-180 | `rename` changes the name alone and persists only the name |
| EditOps.ExitAndShowPersistNothing | src/command/edit.ts:81-89 | `exit` and `show` leave the record alone and ask to persist nothing |
| EditOps.DeltaIsTheChange | src/command/edit.ts:64-74 | without an update the record is unchanged; with one, applying it to the old record gives the new one |
| EditOps.PersistKeepsStoreInStep | src/command/edit.ts:57-74 | after the update is persisted, the stored row and the edited copy still agree on every editable field |
| EditCommand.Decode | src/command/edit.ts:97-100 | the help page replaces `drop` and `rename` without exactly one argument, and `add` without exactly three |
| EditCommand.Respond | src/command/edit.ts:81-223 | showing help changes nothing; without an update the record is unchanged |
| EditCommand.Exit | src/command/edit.ts:81-89 | acts as `Respond` specifies and expires the cache from `now` on |
| EditCommand.Drop | src/command/edit.ts:91-114 | acts on the cached record as `Respond` specifies, lease untouched |
| EditCommand.Add | src/command/edit.ts:116-160 | acts on the cached record as `Respond` specifies, lease untouched |
| EditCommand.Rename | src/command/edit.ts:162-180 | acts on the cached record as `Respond` specifies, lease untouched |
| EditCommand.Mode | src/command/edit.ts:182-198 | acts on the cached record as `Respond` specifies, lease untouched |
| EditCommand.Switch | src/command/edit.ts:200-212 | acts on the cached record as `Respond` specifies, lease untouched |
| EditCommand.Show | src/command/edit.ts:214-223 | replies with the full listing and changes nothing |
| EditCommand.Dispatch | src/command/edit.ts:81-223 | runs the callback of the call; only `exit` touches the lease |
| EditCommand.Run | src/command/edit.ts:37-79 | `CommandWrapper`: an unverified user or a user without a live session changes nothing; a record gone at refresh reports the failure; otherwise the callback's update is written to the row with that id at `later`; the lease is renewed exactly when an update is persisted, and is otherwise left as the fetch left it (untouched on a failed fetch) |
| NormalCommand.ListMessages | src/command/normal.ts:18-31 | a title, then "无" for an empty table or the full listing of each rule set in table order |
| NormalCommand.New | src/command/normal.ts:33-50 | an empty name creates nothing; otherwise an enabled whitelist without conditions under a fresh id, stamped `now`, is appended |
| NormalCommand.Delete | src/command/normal.ts:52-63 | a missing id is reported and changes nothing; otherwise that rule set alone is removed and its name reported |
| NormalCommand.Edit | src/command/normal.ts:65-98 | reports a missing record; refuses a user whose session is still live; otherwise installs a fresh 600-second cache on the record for that user and leaves every other user's entry alone |
| Middleware.KeyOrderListsEachKeyOnce | src/middleware/index.ts:19-28 | the keys of `argvSizeMap` are tried in declaration order, each command word exactly once |
| Middleware.ArgvSizeAgreesWithSlash | src/middleware/index.ts:19-28 | the text argument counts are those the slash commands decode with: 1 for `drop` and `rename`, 3 for `add`, none for the rest |
| Middleware.FirstMatch | src/middleware/index.ts:47-53 | a found key is one of the keys and the text starts with it |
| Middleware.FirstMatchNone | src/middleware/index.ts:47-53 | no key is found exactly when the text starts with none of them |
| Middleware.Parse | src/middleware/index.ts:45-53 | the parsed text never has more parts than the command takes plus one |
| Middleware.SelectCommand | src/middleware/index.ts:45-53 | the loop over the keys yields `Parse` of the text |
| Middleware.KeyNamesPrefixFree | src/middleware/index.ts:19-28 | no command word is a prefix of another |
| Middleware.MatchingKeyIsUnique | src/middleware/index.ts:47-53 | at most one command word matches any text, so the key order does not decide the command |
| Middleware.ArgumentCount | src/middleware/index.ts:50-57 | text starting with no command word always fails the count check; otherwise the count is right exactly when the text has enough spaces; arguments are split parts and contain no space |
| Middleware.TextOp | src/middleware/index.ts:61-142 | every command but `help` decodes to an edit; only `exit` decodes to the exit edit |
| Middleware.OpEffect | src/middleware/index.ts:61-142 | a rejected edit changes nothing and persists nothing; only `exit` ends the session; the id is kept |
| Middleware.TextEffect | src/middleware/index.ts:40-142 | a reply other than the edit report changes nothing; the id is kept |
| Middleware.Execute | src/middleware/index.ts:61-142 | the switch edits the cached record as `OpEffect` specifies; only `exit` touches the lease |
| Middleware.Handle | src/middleware/index.ts:40-157 | the reply and the edited record are `TextEffect` of the fetched record; its update is written to that id stamped `now` and renews the lease |
| Middleware.Message | src/middleware/index.ts:29-158 | an unverified user or one without a live session is passed on untouched; otherwise it acts as `Handle` specifies |
| Middleware.UnknownTextRefused | src/middleware/index.ts:45-57 | text starting with no command word is refused for its argument count and changes nothing |
| Middleware.OpEffectIsNotHelp | src/middleware/index.ts:136-141 | no edit command answers with the help page |
| Middleware.HelpWordParsesAsHelp | src/middleware/index.ts:47-53 | text starting with "help" parses as the help command with one part |
| Middleware.OnlyHelpWordShowsHelp | src/middleware/index.ts:45-57 | text not starting with "help" never gets the help page |
| Middleware.HelpWordShowsHelp | src/middleware/index.ts:45-57 | the help page is the reply exactly when the text starts with "help" |
| Middleware.SlashCall | src/middleware/index.ts:61-142 | the slash command a text command corresponds to decodes to the same edit |
| Middleware.OpAgreesWithSlash | src/command/edit.ts:81-223 | an edit has the same effect on the record, the stored update and the session end through either front end; with replies reduced to status tags, the two differ only on errors |
| Middleware.TextAgreesWithSlash | src/middleware/index.ts:61-142 | a well-formed text command edits and persists exactly as its slash counterpart |
| Middleware.Interceptor | src/middleware/index.ts:160-172 | the message passes exactly when every enabled rule set's rule holds of it |
| Middleware.InterceptionComposes | src/middleware/index.ts:160-172 | a table passes exactly when each of two parts does; an empty table and disabled rule sets never block |

Two behaviours of the code are worth noting:

- **The interception decision.** `Interceptor` (src/middleware/index.ts:160-172) skips disabled rule sets and stops the message at the first enabled one whose rule fails; otherwise it lets the message through. It ignores each rule set's mode, has no administrator bypass, and lets every message through when the table is empty or every rule set is disabled.
- **Text matching no command word.** Such text is refused for its argument count (`help` with no parts fails the check). The help page is reached only by text starting with "help".

## Left out

- Koishi plumbing is not modelled: command registration, `session.send`/`session.execute`, the `ctx.intersect` wiring and `migrate`. Replies are datatypes rather than the exact Chinese strings, and the help text is one `HelpText` line.
- The `TTLCache` class (src/core/ttl_cache.ts) is not part of this model. `EditMode.Cache` follows how it is used: `expired`, `get` with a refresh on expiry, `update` and `markExpired`.
- `Type.User`, `Type.ConditionTypeReverseMap`, `Type.ConditionCompareReverseMap`, `Type.FormatCondition` and `Type.ComputeRule` are not part of this model. They are parameters of the members that use them.
- Middleware.Execute: the text drop index goes through an abstract `parseIndex: string -> int`. JavaScript's coercion of a non-numeric or fractional string (NaN and truncating `splice`) is not modelled.
- EditCommand.Drop: the index arrives as an integer. A fractional `<index:number>`, which `splice` truncates, is not modelled.
- Middleware.OpAgreesWithSlash: replies are compared as status tags. The success texts of the two front ends differ (slash `add` echoes the user's labels, text `add` the translated values; the `rename`, `mode` and `switch` wording differs) and are not distinguished.
- Middleware.Message: the session check and `cache.get()` read the clock at one instant, so the fetch never refreshes and never yields null. The crash of `FormatSchema(null)` that a record removed mid-session could cause between two real clock reads is not modelled.
- Middleware.Execute: the `if (!schema.rule)` guard of the text `add` is not modelled, because the rule column is declared non-nullable.
- Condition types and compare operators are closed enumerations, so the `undefined` result of an unmatched `switch` in src/resolver.ts cannot arise.
- Asynchrony, interleaving of concurrent handlers, database failures, and timestamps as `Date` values (they are integers here) are not modelled.
- NormalCommand.Edit: the cache is installed under the key once. The source indexes the map twice with `user.toString()`, which returns the same key each time.
