# Member store and reference-code redemption

This project models the core of a small membership tool. Administrators keep
a `members` table of invited people. Each row carries a one-time reference
code. A Discord bot lets an invited user redeem that code with the
`getaccess` command. A successful redemption sets the user's guild nickname,
may add a role, and records the user's Discord id on the code's row.

Modules:

- `Wrappers` (`wrappers.dfy`): `Option` and `Result`.
- `Members` (`members.dfy`): the table as a `Store`, the member record, and
  the validating operations of the member model: `addMember`,
  `updateMember`, `deleteMember` and `checkReferenceCode`. The table's
  constraints are the predicate `Valid`. Reference codes are unique (the
  `UNIQUE` column in `scripts/check-db.js:27`), ids are unique, and the id
  sequence is ahead of every id.
- `MemberQueries` (`member_queries.dfy`): the read queries. These are the
  rows of one batch, the distinct batch codes in ascending order, and the
  five newest rows.
- `LexOrder` (`lex_order.dfy`): the string order used by
  `ORDER BY batch_code`, with the lemmas that make it a strict total order.
- `Redemption` (`redemption.dfy`): the bot's `interactionCreate` handler as
  the pure transition `Redeem(store, guild, faults, interaction)`. It
  returns the reply, the guild changes in the order they happen, and the
  store afterwards.

Modelling choices:

- A JavaScript "truthy" string is one that is present and non-empty. A row
  counts as *bound* when its `discord_id` is truthy. That is the test the
  handler and `checkReferenceCode` apply.
- The requester check compares `discord_id` with SQL equality.
- `created_at` is an abstract natural number. The caller of `AddMember`
  supplies it, because the clock is outside the model.
- The guild is an oracle value (`Guild`). It holds the bot's effective
  permissions, or none when the bot's own member record is unavailable. It
  also holds the users `members.fetch` can resolve, the users whose nickname
  the bot may not change, the role ids in the role cache, and the roles the
  bot may not assign.
- `Faults` records which of the handler's three database calls throw.
- Requests are handled one at a time.

Behaviour worth noting:

- The binding write is an unconditional `UPDATE members SET discord_id = $1
  WHERE reference_code = $2` (discord-bot/bot.js:165-168), with no
  compare-and-set. `BindDiscordId` keeps it unconditional.
- Only an empty role or a role id missing from the role cache is skipped. A
  `roles.add` that throws ends in the "contact an administrator" reply, and
  the store is not written (discord-bot/bot.js:156-179).
- Guild changes are never rolled back. When `roles.add` throws, the nickname
  stays set. When the write throws, the nickname and role stay applied while
  the row stays unbound.
- `addMember` requires `batch_code`, `first_name`, `last_name`,
  `reference_code` and `internal_role` (models/members.js:40-54). It caps
  `discord_id` at 64 characters and `reference_code` not at all
  (models/members.js:67-73).

## Model

| member | source | states |
|---|---|---|
| Members.AddMember | models/members.js:29-121 | A missing required field gives a missing-fields error naming exactly the absent or empty ones, checked before lengths. An over-long batch code, first name, last name (32), role or Discord id (64) gives a too-long error naming exactly those fields; the reference code has no cap. A code already in the table gives the duplicate error. Otherwise exactly one row is appended, carrying the given fields, a fresh id and the timestamp; that row is returned and the constraints still hold. |
| Members.MissingAmong | models/members.js:40-54 | The missing-field list holds exactly the listed fields whose value is absent or empty, and it is empty exactly when all are present. |
| Members.TooLongAmong | models/members.js:66-81 | The too-long list holds exactly the capped fields that are present and exceed their cap, and it is empty exactly when all are within their caps. |
| Members.FindByCode | models/members.js:126-131 | The lookup finds nothing exactly when no row has the code; otherwise it finds the first row with that code. |
| Members.CheckReferenceCode | models/members.js:124-144 | The answer is "invalid" exactly when no row has the code. With unique codes it is "already used" exactly when the code's row is bound, and "valid" exactly when it is unbound. The store is an argument only, so it is never changed. |
| Members.UpdateMember | models/members.js:200-252 | Missing fields, then over-long fields (32/32/32/64), are rejected, naming exactly the offending fields. An unknown id gives not-found. On success the row with that id takes the four new values. Every row keeps its id, reference code, Discord id and timestamp, every other row is untouched, and the constraints still hold. |
| Members.DeleteMember | models/members.js:146-158 | If no row has the id, nothing is returned and the store is unchanged. Otherwise the row with that id is returned. The remaining rows are exactly those with another id, and with unique ids they are the old rows with that one row cut out. The constraints still hold. |
| Members.RemoveId | models/members.js:149-152 | `DELETE ... WHERE id` keeps exactly the rows with a different id, and changes nothing when the id is absent. |
| Members.RemoveIdIsSlice | models/members.js:149-152 | With unique ids, the delete removes exactly one row, the one at the id's position, and keeps the others in order. |
| Members.AddThenDeleteRestores | models/members.js:147-153 | Deleting the member just added returns that member and restores the rows from before the insert. |
| Members.AddedCodeIsKnown | models/members.js:124-144 | A freshly added code is known to `checkReferenceCode`. It counts as used exactly when a Discord id was supplied with it. |
| Members.UpdateKeepsCodeStatus | models/members.js:230-235 | Editing a member never changes whether any code is invalid, used or unused. |
| MemberQueries.GetMembersByBatch | models/members.js:173-185 | Every returned row has the requested batch code, and each row with that code is returned as many times as the table holds it. |
| MemberQueries.GetUniqueBatchCodes | models/members.js:160-171 | A code is listed exactly when some row has it, and the list is strictly ascending. |
| MemberQueries.UniqueBatchCodesAreDistinct | models/members.js:163-166 | No batch code is listed twice. |
| MemberQueries.BatchListedIffMembersFound | models/members.js:161-185 | A batch code is listed exactly when asking for that batch returns at least one row. |
| MemberQueries.InsertDistinct | models/members.js:164 | Adding a code to a strictly ascending list keeps it strictly ascending, and the list then holds exactly the old codes plus the new one. |
| MemberQueries.SortByRecency | models/members.js:190-192 | `ORDER BY created_at DESC` is a permutation of the rows with non-increasing timestamps. |
| MemberQueries.GetRecentMembers | models/members.js:187-198 | The result has as many rows as the table, up to five, all drawn from the table and newest first. No row left out is newer than any row returned. |
| LexOrder.LessTotal | models/members.js:164 | Any two distinct batch codes are ordered one way or the other, so the ascending order is total. |
| LexOrder.LessTransitive | models/members.js:164 | The batch-code order is transitive. |
| Redemption.FrontDoor | discord-bot/bot.js:81-108 | An interaction that is not `getaccess` is ignored. One outside the allowed channel is refused. One where the bot lacks either ManageNicknames or ManageRoles, or its member record is unavailable, is refused. These checks take no store argument. |
| Redemption.Screen | discord-bot/bot.js:110-148 | A failing read gives the generic processing error. A requester already bound to a row is told "already received". A code no row has is invalid. With unique codes, a bound row gives "in use". Only an unbound row with the code goes on. |
| Redemption.Nickname | discord-bot/bot.js:154 | The nickname is the first name, one space, then the last name. |
| Redemption.RoleToAdd | discord-bot/bot.js:156-162 | A role is added only when the row's role is non-empty and in the guild's role cache. An id missing from the cache is skipped without error. |
| Redemption.BindDiscordId | discord-bot/bot.js:164-168 | Every row with the code gets the requester's id, and no other field or row changes. |
| Redemption.ApplyAndBind | discord-bot/bot.js:150-179 | The outcome is success exactly when the member can be fetched, the nickname set, the role (if any) added and the write done. Success means the binding is in the store and the planned changes were made. Any failure gives the administrator failure with the store unchanged, and changes already made stay: a failing role add leaves the nickname set, and a failing write leaves the nickname and role applied. The guild changes made are always a prefix of the plan. |
| Redemption.Redeem | discord-bot/bot.js:80-193 | Only the success reply comes with a store change. That change binds the requester's id to the code's rows and nothing else. Success and any guild change require every check to have passed and an unbound row with the code. On success the guild changes are that row's nickname (first name, space, last name) and then its role when non-empty and cached. A failing read after the front door gives the processing error with nothing changed. A request refused at the front door changes nothing in the guild. |
| Redemption.FrontDoorRefusalIgnoresStore | discord-bot/bot.js:81-108 | A request refused by the command, channel or permission check gets the same reply whatever the store holds and whatever the database would do. It changes nothing. |
| Redemption.AlreadyReceivedWhateverCode | discord-bot/bot.js:114-123 | Once the request reaches the database and the user query succeeds, a requester already bound to a row is told "already received" whatever code they submit, and nothing changes. |
| Redemption.CodeVerdictAgreesWithCheckReferenceCode | discord-bot/bot.js:125-148 | Once the reads succeed, the handler's invalid, in-use and proceed verdicts match the three answers of `checkReferenceCode`. |
| Redemption.RedeemPreservesInvariants | discord-bot/bot.js:165-168 | A redemption keeps the table's constraints. If no Discord id was bound to two rows before, none is afterwards. |
| Redemption.RedeemedRequesterIsRefused | discord-bot/bot.js:115-168 | After a successful redemption, every later `getaccess` from that requester that reaches the database is answered "already received". |
| Redemption.RedeemedCodeIsNotRedeemedAgain | discord-bot/bot.js:131-168 | After a code is redeemed by a requester with a non-empty id, no later request for the same code succeeds, whoever sends it. Discord user ids are never empty; an empty id would leave the row unbound. |
| Redemption.RedeemedCodeIsInUseForOthers | discord-bot/bot.js:115-148 | After a code is redeemed by a requester with a non-empty id, another requester who holds no row, whose request reaches the database and whose reads succeed, is told the code is in use, and nothing changes. A requester who already holds a row is told "already received" instead, because that check comes first. |
| Redemption.JaneDoeScenario | discord-bot/bot.js:80-193 | Four cases end to end. U1 redeems Jane Doe's code: the nickname is "Jane Doe", the role is added, and the row is bound. After that, U1 gets "already received", U2 gets "in use" for the same code, and U3 gets "invalid" for an unknown code, with nothing changed. |

## Left out

- Storage failures in the member model are not modelled: the generic "insert failed", "delete failed" and query errors, and the impossible "no data returned" insert. Only the unique-violation error (`23505`) is.
- `getAllMembers` and `logSchema` are not modelled. The first returns the table's rows unchanged; the second only logs.
- Schema details are simplified. The `discord_role_id` column is dropped from `Member`, since nothing reads or writes it. `batch_code` and `internal_role` are plain strings although the schema allows NULL, since every row `addMember` writes has them set.
- Column widths of the bootstrap schema (`VARCHAR(255)`) are not modelled. The caps modelled are the ones `addMember` and `updateMember` check.
- Id values are not modelled exactly. A failed insert consumes a value of the `SERIAL` sequence; the model only keeps ids fresh and unique.
- Request bodies are modelled as optional strings. Numbers or objects in a body, and JavaScript's UTF-16 string lengths, are not modelled; length is the number of characters.
- MemberQueries.GetUniqueBatchCodes: orders codes by character code, which is what a byte-wise collation gives; other database collations order differently.
- MemberQueries.GetMembersByBatch: says nothing about row order, because an unordered `SELECT` leaves it open.
- MemberQueries.GetRecentMembers: says nothing about the order of rows with equal timestamps, because SQL leaves it open.
- Members.CheckReferenceCode: states its "already used" and "valid" answers in terms of "the row with the code" only for a table with unique codes. Without that constraint it reads the first matching row.
- Reply mechanics are not modelled: `deferReply`, `editReply` and `reply`, including failures of those calls. The outer handler's choice between `reply` and `editReply` is left out, and so is a reply that fails after the binding was written.
- Concurrency is not modelled. Requests are handled one after another. The check-then-write race between the code lookup and the unconditional update is outside a sequential model; no guard is invented.
- The Discord library is reduced to the `Guild` oracle. This covers the administrator override in permission checks (the oracle holds effective permissions), role-cache staleness, and every reason the platform may refuse a nickname or a role.
- Client setup, intent checks, command registration, login and `fetchRoles` are library wiring with nothing to state.
- The Express routes and controllers, the browser front end, configuration loading and the schema bootstrap script are I/O plumbing. The PUT route and the controller's update use a database handle they never import and skip the model's validation.
