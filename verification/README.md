# Role selector bot — a Dafny model

This project models the core of a Discord bot that lets a guild operator build
a "role selector" message: an operator opens a draft with
`/roleselector create`, adds up to four named groups of roles with
`/roleselector add`, and publishes the draft with `/roleselector finish` as a
message holding one select menu per group and the buttons "list all" and
"remove all". Members then pick roles in a menu, list the roles they hold, or
drop all of them.

The model covers four pieces of `DiscordRoles/DiscordRoles/Program.cs`:

- **Draft store** (`drafts.dfy`, `commands.dfy`, `session.dfy`). The store maps a
  (guild id, user id) key to a draft, an ordered list of groups, each an ordered
  list of roles. `create`, `delete`, `add` and `finish` are total functions
  from the store, the key and the sub-command's options to a new store and an
  outcome (`Created`, `AlreadyExists`, `Deleted`, `DoesNotExist`, `MaxLength`,
  `NameExists(name)`, `DuplicateValues(names)`, `Added`, `Finished(component, target)`).
  `Execute` dispatches on the sub-command and `Run` handles a sequence of
  invocations one at a time.
- **Renderer** (`components.dfy`). `Render` turns a draft into the message
  component: one menu per group in draft order, then the two buttons.
- **Reading a published component** (`components.dfy`). `OfferedIds` recovers the
  ids one menu offers, as the select-menu handler does, and `AllOfferedIds`
  recovers the ids every menu offers, as the button handler does.
- **Role diff** (`role_diff.dfy`). For a menu selection, the roles to revoke are
  the menu's offered roles minus the selected ones, and the roles to grant are
  the selected ones. "remove all" revokes every offered role. "list all"
  reports the offered roles the member holds. Role changes are returned as
  `RemoveRoles`/`AddRoles` calls, and each call is skipped when its set is
  empty. `ApplyCalls` states what the platform does with the calls, which lets
  the lemmas say what the member holds afterwards.

Modelling choices:

- A draft is a sequence of groups in insertion order. The bot keeps each draft
  in a dictionary from which entries are never removed, and such a dictionary
  enumerates in insertion order.
- The key is (guild id, user id), the guild-scoped form the code uses at line 91.
- A sub-command's options are a list of (name, value) pairs. A value is either
  text or a resolved role. The group name is the single option called "name".
  The roles are the role-valued options in the order supplied.
- The command schema declared at lines 45-77 guarantees the following, so the
  model takes it as preconditions:
  - `add` always carries exactly one text option called "name".
  - `add` carries at most twenty roles.
  - `finish` carries at most one text option.
- Role ids are `nat`. A menu option's value is the role id. The code writes it
  as text and parses it back, and the model treats that as the identity.
- A component is a list of action rows of items. `Render` puts each menu in a
  row of its own, followed by one row with both buttons. Reading a component
  flattens the rows and keeps only the menus, so the round trip does not
  depend on the row layout.
- The store is used sequentially: each invocation sees the store the previous
  one left.
- In three places the code does less than a reader might expect, and the
  model follows the code:
  - Only duplicate display names are rejected. The code never checks role
    identity separately. A role given twice has the same name, so it is
    rejected too (`Drafts.DistinctNamesGiveDistinctIds`).
  - The twenty-role ceiling comes only from the command schema. `add` itself
    never checks it.
  - `finish` leaves the draft in the store.

## Model

| member | source | states |
|---|---|---|
| Session.Create | DiscordRoles/DiscordRoles/Program.cs:95-104 | Reports Created exactly when the key had no draft, and then the key maps to an empty draft. Otherwise it reports AlreadyExists. Every draft already in the store is kept as it was, and the store invariant is preserved. |
| Session.Delete | DiscordRoles/DiscordRoles/Program.cs:105-113 | Reports Deleted exactly when the key had a draft, otherwise DoesNotExist. Afterwards the key is absent and every other draft is unchanged. |
| Session.Add | DiscordRoles/DiscordRoles/Program.cs:114-157 | The checks run in the code's order: a missing draft gives DoesNotExist; four or more groups give MaxLength; a name already in the draft gives NameExists(name); repeated display names give DuplicateValues listing exactly the repeated names, each once, in order of first occurrence. Added happens if and only if every check passes. On any rejection the store is unchanged. On success exactly one group (name, roles in supplied order) is appended and nothing else changes. The store invariant is preserved. |
| Session.Finish | DiscordRoles/DiscordRoles/Program.cs:158-201 | Never changes the store. A missing draft gives DoesNotExist. Otherwise it gives Finished with the rendered draft. The target edits the message named by the text option when one is given, and posts a new message otherwise. |
| Session.Execute | DiscordRoles/DiscordRoles/Program.cs:93-209 | Dispatches on the sub-command name. Any name other than create, delete, add and finish is the unknown case. Only the caller's draft can change. The store invariant is preserved. `finish` and unknown sub-commands leave the store alone, and an unknown sub-command reports UnknownCommand. |
| Session.RunPreservesValid | DiscordRoles/DiscordRoles/Program.cs:114-156 | Any sequence of invocations applied to a valid store leaves it valid. |
| Session.ReachableDraftsValid | DiscordRoles/DiscordRoles/Program.cs:123-153 | Starting from an empty store, whatever invocations arrive, no draft has more than four groups, two groups with one name, or a group with two roles of one display name. |
| Session.CreateTwice | DiscordRoles/DiscordRoles/Program.cs:97-101 | Two creates on a fresh key: the first reports Created, the second AlreadyExists and changes nothing. |
| Session.CreateThenDelete | DiscordRoles/DiscordRoles/Program.cs:97-111 | Create then delete on a fresh key reports Deleted and gives back the original store, so the key is absent. |
| Session.AddSameNameTwice | DiscordRoles/DiscordRoles/Program.cs:133-137 | While the draft still has room for another group, re-adding a group that was just added is rejected with NameExists and the store is unchanged. If that add filled the draft, MaxLength comes first, because the group count is checked before the name. |
| Session.AddFreshStep | DiscordRoles/DiscordRoles/Program.cs:123-155 | One `add` of a new name whose roles have distinct display names is accepted exactly while the draft has fewer than four groups, and then appends that name. Otherwise it is refused with MaxLength and the store is unchanged. |
| Session.AddEachOutcomes | DiscordRoles/DiscordRoles/Program.cs:123-127 | Payloads with fresh, pairwise different names and no repeated display names are added until the draft holds four groups. Each later payload gets MaxLength. |
| Session.FifthGroupRefused | DiscordRoles/DiscordRoles/Program.cs:123-127 | After create, five such payloads give Added four times and then MaxLength. |
| Commands.RolesOf | DiscordRoles/DiscordRoles/Program.cs:139 | The roles of an `add` payload are exactly the role-valued options, however they are named. |
| Commands.RolesOfAppend | DiscordRoles/DiscordRoles/Program.cs:139 | Extracting roles distributes over concatenation of payloads, so supplied order is kept. |
| Commands.GroupName | DiscordRoles/DiscordRoles/Program.cs:129-131 | The group name is the text of the option called "name". |
| Commands.MessageTarget | DiscordRoles/DiscordRoles/Program.cs:187-190 | There is no target exactly when the `finish` payload has no text option. Otherwise the target is the text of that option. |
| Drafts.DuplicateNames | DiscordRoles/DiscordRoles/Program.cs:141-147 | Reports exactly the display names that occur more than once. Each name appears once, in order of first occurrence. The report is empty exactly when all names are distinct. |
| Drafts.DistinctNamesGiveDistinctIds | DiscordRoles/DiscordRoles/Program.cs:141-144 | Suppose equal ids carry equal names. Then a group that passes the display-name check never offers the same role id twice. |
| Components.MenuFor | DiscordRoles/DiscordRoles/Program.cs:170-177 | The menu of a group has custom id = group name, placeholder "Select {name}(s)", at least 0 and at most (role count) choices, and one option per role in order. Each option is labelled with the role's name and carries its id. |
| Components.Render | DiscordRoles/DiscordRoles/Program.cs:167-182 | Read back, the component has one menu per group in draft order (each the group's menu) and the buttons "list all" (id list) and "remove all" (id remove, danger style). Its custom ids are the group names followed by "list" and "remove". |
| Components.OfferedIds | DiscordRoles/DiscordRoles/Program.cs:225-229 | Returns an answer exactly when one menu of the message carries the custom id. The answer is that menu's option values. |
| Components.AllOfferedIds | DiscordRoles/DiscordRoles/Program.cs:260-264 | An id is collected exactly when some menu of the message offers it. |
| Components.RenderRoundTrip | DiscordRoles/DiscordRoles/Program.cs:225-229 | In a draft with unique group names, reading back the menu of any group of the rendered draft gives exactly that group's role ids, in order. A name of no group gives nothing. |
| Components.RenderAllOffered | DiscordRoles/DiscordRoles/Program.cs:260-264 | The ids the buttons collect from a rendered draft are exactly the role ids of all its groups. |
| Components.RenderCustomIdsDistinct | DiscordRoles/DiscordRoles/Program.cs:174-181 | The rendered custom ids are pairwise distinct if and only if the group names are distinct and no group is called "list" or "remove". |
| RoleDiff.MenuDiff | DiscordRoles/DiscordRoles/Program.cs:230-233 | Revokes exactly the offered roles that were not selected, and grants the selection. The two sets are disjoint. When the selection lies inside the menu, together they cover the menu. |
| RoleDiff.Calls | DiscordRoles/DiscordRoles/Program.cs:237-238 | There is a removal call exactly when something is revoked, and an add call exactly when something is granted. No call has an empty set. |
| RoleDiff.SelectMenuExecuted | DiscordRoles/DiscordRoles/Program.cs:225-238 | Gives calls exactly when one menu of the message carries the custom id. Whatever roles the member held, once the calls are carried out the member holds an id of that menu exactly when it was selected. An id that is neither in the menu nor selected keeps its state. No call has an empty set. |
| RoleDiff.MenuSelectionDecidesMenuRoles | DiscordRoles/DiscordRoles/Program.cs:232-238 | Once the calls are carried out, the member holds an offered role exactly when it was selected, and holds every selected role. Roles that were neither offered nor selected are kept as they were. |
| RoleDiff.PublishedMenuSelection | DiscordRoles/DiscordRoles/Program.cs:225-238 | Selecting in group i's menu of a published draft leaves the member holding exactly the selected roles of group i. Every role that is neither in the group nor selected is unchanged. |
| RoleDiff.ButtonExecuted | DiscordRoles/DiscordRoles/Program.cs:260-287 | "list" reports exactly the held roles that some menu offers, which is a subset of the held roles. "remove" revokes the set of every offered id, with no call when none is offered. Any other id does nothing. |
| RoleDiff.RemoveAllClearsOfferedRoles | DiscordRoles/DiscordRoles/Program.cs:278-280 | After "remove all" the member holds no offered role and keeps every other role. |
| RoleDiff.MenuDiffExample | DiscordRoles/DiscordRoles/Program.cs:232-238 | Menu {1,2,3} with selection {2,3} revokes {1}, then grants {2,3}. |
| RoleDiff.EmptySelection | DiscordRoles/DiscordRoles/Program.cs:232-238 | An empty selection revokes the whole menu and issues no grant. |
| RoleDiff.RemoveAllExample | DiscordRoles/DiscordRoles/Program.cs:260-280 | "remove all" on menus offering {1,2} and {3,4} revokes {1,2,3,4}, whatever the member holds. |

## Left out

- Client setup, login, the token environment variable, the endless delay and
  `Log` (lines 7-39). These are process startup and I/O.
- Command registration in `Ready` (lines 41-85). It is a call into the
  platform library. The model uses only its guarantees, as preconditions:
  exactly one `name`, at most twenty roles, at most one `message`.
- Responses, deferrals and follow-ups. Outcomes and call lists stand for them.
  The exact response texts and the ephemeral flags are not modelled. For
  example, `finish` on a missing draft answers publicly, and the other
  sub-commands answer ephemerally.
- Sending or editing the published message. `Finished` names the target
  instead.
- Roles are recorded as they were at `add`, as (id, display name). The code
  keeps the library's live role objects (lines 21, 139, 153) and reads each
  name again when `finish` renders (line 172). A role renamed between `add`
  and `finish` is published under its new name, which the model does not
  represent. So the distinct-display-name invariant (`Drafts.ValidGroup`,
  `Session.ReachableDraftsValid`) covers the names at `add` time, not
  necessarily the labels that end up published.
- Parsing the `message` option as a 64-bit id (line 193). The target keeps
  the text, so a parse failure is not modelled.
- Role ids are unbounded. Their 64-bit width plays no part in the logic.
- `HttpException` logging and rethrow. These are error plumbing.
- The `InvalidOperationException` raised outside a guild (lines 91, 223, 258).
  The key and the member are parameters of the model.
- Concurrency. The store is a `ConcurrentDictionary`, but the draft inside it
  is mutated after `TryGetValue` without a lock (lines 116-153). The model is
  sequential, so races between two `add`s on one key are not modelled.
- `RoleDiff.ButtonExecuted`: for "list" it returns the set of held offered
  role ids. It does not model the lookup of those roles among the guild's
  roles or their formatting as mentions (lines 270-273).
- The row layout of the platform library's component builder. The model puts
  each menu in its own row, followed by a button row. No property depends on
  this layout.
- Checks the platform library and the platform make on a component are not
  modelled:
  - A group added with no roles renders a menu with no options and at most
    0 choices.
  - The builder's length limits on a menu's custom id and placeholder
    (lines 174-175) are not modelled. `add` accepts a group name of any
    length, and `Render` always succeeds.
  - A group called "list" or "remove" shares its custom id with a button
    (`Components.RenderCustomIdsDistinct` states exactly when that happens).
  - The model does not decide whether the platform accepts such a message.
- The unknown-sub-command embed and its timestamp (lines 202-209).
  `UnknownCommand` stands for it.
