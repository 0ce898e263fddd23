/**
 * The bot's `getaccess` interaction handler: a user submits a reference
 * code and, if every check passes, receives a nickname and role in the
 * guild while the code's row records their Discord id.
 *
 * The guild and the database's failures are parameters: `Guild` says what
 * the bot can see and change, `Faults` says which database calls throw.
 */
module Redemption {
  import opened Wrappers
  import opened Members

  /** The slash command the handler answers. */
  const GetAccessCommand := "getaccess"

  /** The only channel the command may be used in. */
  const AllowedChannelId := "1317751243682091038"

  datatype Permission = ManageNicknames | ManageRoles | OtherPermission(name: string)

  /** The parts of an incoming interaction the handler reads. */
  datatype Interaction = Interaction(
    isCommand: bool,
    commandName: string,
    channelId: string,
    userId: string,
    referenceCode: string)

  /**
   * The guild as the bot sees it: its own effective permissions (None when
   * its member record is unavailable), the users `members.fetch` resolves,
   * the users whose nickname it may not change, the role ids in the role
   * cache, and the roles it may not assign.
   */
  datatype Guild = Guild(
    botPermissions: Option<set<Permission>>,
    fetchable: set<string>,
    nicknameLocked: set<string>,
    roleCache: set<string>,
    roleLocked: set<string>)

  /** Which of the handler's three database calls throw. */
  datatype Faults = Faults(userQueryFails: bool, codeQueryFails: bool, updateFails: bool)

  /** A change the bot made in the guild. */
  datatype GuildEffect = NicknameSet(user: string, nickname: string) | RoleAdded(user: string, role: string)

  /** The handler's reply, one per distinct message it can send (or none, for `Ignored`). */
  datatype Outcome =
    | Ignored
    | WrongChannel
    | MissingPermissions
    | AlreadyReceived
    | InvalidReferenceCode
    | CodeInUse
    | Approved
    | UpdateFailed
    | ProcessingError

  /** What one interaction does: the reply, the guild changes in order, and the store after. */
  datatype Step = Step(outcome: Outcome, effects: seq<GuildEffect>, store: Store)

  /** The database checks either refuse or hand over the row the code names. */
  datatype Screening = Refused(reason: Outcome) | Matched(row: Member)

  predicate IsGetAccess(i: Interaction)
  {
    i.isCommand && i.commandName == GetAccessCommand
  }

  /** The bot's member record is available and holds both permissions it needs. */
  predicate BotMayManage(g: Guild)
  {
    g.botPermissions.Some? && ManageNicknames in g.botPermissions.value && ManageRoles in g.botPermissions.value
  }

  /** Some row already carries this Discord id: `SELECT ... WHERE discord_id = $1`. */
  predicate HasIdentity(rows: seq<Member>, user: string)
  {
    exists k :: 0 <= k < |rows| && rows[k].discordId == Some(user)
  }

  /** The request reaches the database checks. */
  predicate PassesFrontDoor(g: Guild, i: Interaction)
  {
    IsGetAccess(i) && i.channelId == AllowedChannelId && BotMayManage(g)
  }

  /** No Discord id is bound to more than one row. */
  predicate IdentitiesUnique(rows: seq<Member>)
  {
    forall j, k :: 0 <= j < k < |rows| && IsBound(rows[j]) ==> rows[j].discordId != rows[k].discordId
  }

  /**
   * The command, channel and permission checks, which consult only the
   * interaction and the guild: an answer here means the handler stops
   * before touching the store.
   */
  function FrontDoor(g: Guild, i: Interaction): (r: Option<Outcome>)
    ensures r.None? <==> PassesFrontDoor(g, i)
    ensures r == Some(Ignored) <==> !IsGetAccess(i)
    ensures r == Some(WrongChannel) <==> IsGetAccess(i) && i.channelId != AllowedChannelId
    ensures r == Some(MissingPermissions) <==> IsGetAccess(i) && i.channelId == AllowedChannelId && !BotMayManage(g)
  {
    if !IsGetAccess(i) then Some(Ignored)
    else if i.channelId != AllowedChannelId then Some(WrongChannel)
    else if !BotMayManage(g) then Some(MissingPermissions)
    else None
  }

  /**
   * The two reads: first whether the requester already holds a row, then
   * the code lookup and whether that row is already bound. A failing
   * read ends in the generic processing error.
   */
  function Screen(s: Store, f: Faults, i: Interaction): (r: Screening)
    ensures r == Refused(ProcessingError) <==> f.userQueryFails || (!HasIdentity(s.rows, i.userId) && f.codeQueryFails)
    ensures r == Refused(AlreadyReceived) <==> !f.userQueryFails && HasIdentity(s.rows, i.userId)
    ensures r == Refused(InvalidReferenceCode) <==>
              !f.userQueryFails && !HasIdentity(s.rows, i.userId) && !f.codeQueryFails && !HasCode(s.rows, i.referenceCode)
    ensures CodesUnique(s.rows) ==>
              (r == Refused(CodeInUse) <==>
                 && !f.userQueryFails && !HasIdentity(s.rows, i.userId) && !f.codeQueryFails
                 && exists k :: 0 <= k < |s.rows| && s.rows[k].referenceCode == i.referenceCode && IsBound(s.rows[k]))
    ensures r.Refused? ==> r.reason in {ProcessingError, AlreadyReceived, InvalidReferenceCode, CodeInUse}
    ensures r.Matched? ==>
              && !f.userQueryFails && !f.codeQueryFails && !HasIdentity(s.rows, i.userId)
              && r.row in s.rows && r.row.referenceCode == i.referenceCode && !IsBound(r.row)
  {
    if f.userQueryFails then Refused(ProcessingError)
    else if HasIdentity(s.rows, i.userId) then Refused(AlreadyReceived)
    else if f.codeQueryFails then Refused(ProcessingError)
    else
      match FindByCode(s.rows, i.referenceCode)
      case None => Refused(InvalidReferenceCode)
      case Some(k) => if IsBound(s.rows[k]) then Refused(CodeInUse) else Matched(s.rows[k])
  }

  /** The nickname a redeemed member receives: first name, a space, last name. */
  function Nickname(m: Member): (r: string)
    ensures |r| == |m.firstName| + 1 + |m.lastName|
    ensures r[..|m.firstName|] == m.firstName
    ensures r[|m.firstName|] == ' '
    ensures r[|m.firstName| + 1..] == m.lastName
  {
    m.firstName + " " + m.lastName
  }

  /** The role to add: the row's role, when it is set and the guild's cache knows it. */
  function RoleToAdd(g: Guild, m: Member): (r: Option<string>)
    ensures r.Some? <==> m.internalRole != "" && m.internalRole in g.roleCache
    ensures r.Some? ==> r.value == m.internalRole
  {
    if m.internalRole != "" && m.internalRole in g.roleCache then Some(m.internalRole) else None
  }

  /** The guild changes a redemption makes when nothing fails: the nickname, then the role if any. */
  function PlannedEffects(g: Guild, user: string, m: Member): seq<GuildEffect>
  {
    [NicknameSet(user, Nickname(m))] + (if RoleToAdd(g, m).Some? then [RoleAdded(user, RoleToAdd(g, m).value)] else [])
  }

  /**
   * `UPDATE members SET discord_id = $1 WHERE reference_code = $2`: every
   * row with the code gets the id, unconditionally; nothing else changes.
   */
  function BindDiscordId(rows: seq<Member>, code: string, user: string): (r: seq<Member>)
    ensures |r| == |rows|
    ensures forall k :: 0 <= k < |rows| ==> r[k].(discordId := rows[k].discordId) == rows[k]
    ensures forall k :: 0 <= k < |rows| && rows[k].referenceCode == code ==> r[k].discordId == Some(user)
    ensures forall k :: 0 <= k < |rows| && rows[k].referenceCode != code ==> r[k] == rows[k]
  {
    seq(|rows|, k requires 0 <= k < |rows| =>
      if rows[k].referenceCode == code then rows[k].(discordId := Some(user)) else rows[k])
  }

  /**
   * The side effects and the write: fetch the member, set the nickname,
   * add the role, bind the id. Any of them throwing ends in the
   * "contact an administrator" reply; guild changes already made stay.
   */
  function ApplyAndBind(s: Store, g: Guild, f: Faults, user: string, code: string, m: Member): (r: Step)
    ensures r.outcome == Approved || r.outcome == UpdateFailed
    ensures r.outcome == Approved <==>
              && user in g.fetchable && user !in g.nicknameLocked
              && (RoleToAdd(g, m).Some? ==> RoleToAdd(g, m).value !in g.roleLocked)
              && !f.updateFails
    ensures r.outcome == Approved ==> r.store == Store(BindDiscordId(s.rows, code, user), s.nextId)
    ensures r.outcome == Approved ==> r.effects == PlannedEffects(g, user, m)
    ensures r.outcome == UpdateFailed ==> r.store == s
    ensures r.effects <= PlannedEffects(g, user, m)
    ensures user !in g.fetchable || user in g.nicknameLocked ==> r.effects == []
    ensures && user in g.fetchable && user !in g.nicknameLocked
            && RoleToAdd(g, m).Some? && RoleToAdd(g, m).value in g.roleLocked
            ==> r == Step(UpdateFailed, [NicknameSet(user, Nickname(m))], s)
    ensures && user in g.fetchable && user !in g.nicknameLocked
            && (RoleToAdd(g, m).Some? ==> RoleToAdd(g, m).value !in g.roleLocked)
            && f.updateFails
            ==> r == Step(UpdateFailed, PlannedEffects(g, user, m), s)
  {
    if user !in g.fetchable || user in g.nicknameLocked then Step(UpdateFailed, [], s)
    else
      var named := [NicknameSet(user, Nickname(m))];
      match RoleToAdd(g, m)
      case Some(role) =>
        if role in g.roleLocked then Step(UpdateFailed, named, s)
        else
          var both := named + [RoleAdded(user, role)];
          if f.updateFails then Step(UpdateFailed, both, s)
          else Step(Approved, both, Store(BindDiscordId(s.rows, code, user), s.nextId))
      case None =>
        if f.updateFails then Step(UpdateFailed, named, s)
        else Step(Approved, named, Store(BindDiscordId(s.rows, code, user), s.nextId))
  }

  /**
   * The whole `interactionCreate` handler. The store changes only when the
   * reply is the success message, and then only by binding the requester's
   * id to the code's row; guild changes happen only once every check passed.
   */
  function Redeem(s: Store, g: Guild, f: Faults, i: Interaction): (r: Step)
    ensures r.outcome != Approved ==> r.store == s
    ensures r.outcome == Approved ==> r.store == Store(BindDiscordId(s.rows, i.referenceCode, i.userId), s.nextId)
    ensures r.outcome == Approved || r.effects != [] ==>
              && PassesFrontDoor(g, i)
              && !HasIdentity(s.rows, i.userId)
              && exists k :: 0 <= k < |s.rows| && s.rows[k].referenceCode == i.referenceCode && !IsBound(s.rows[k])
    ensures !PassesFrontDoor(g, i) ==> r.effects == [] && r.outcome in {Ignored, WrongChannel, MissingPermissions}
    ensures r.outcome == Approved ==> !f.updateFails
    ensures r.outcome == Approved ==>
              exists k :: && 0 <= k < |s.rows| && s.rows[k].referenceCode == i.referenceCode && !IsBound(s.rows[k])
                          && r.effects == PlannedEffects(g, i.userId, s.rows[k])
    ensures PassesFrontDoor(g, i) && f.userQueryFails ==> r == Step(ProcessingError, [], s)
    ensures PassesFrontDoor(g, i) && !f.userQueryFails && !HasIdentity(s.rows, i.userId) && f.codeQueryFails ==>
              r == Step(ProcessingError, [], s)
  {
    match FrontDoor(g, i)
    case Some(refusal) => Step(refusal, [], s)
    case None =>
      match Screen(s, f, i)
      case Refused(reason) => Step(reason, [], s)
      case Matched(m) =>
        var k := FindByCode(s.rows, i.referenceCode).value;
        assert s.rows[k] == m;
        ApplyAndBind(s, g, f, i.userId, i.referenceCode, m)
  }

  /**
   * A request stopped by the command, channel or permission check gets
   * the same reply whatever the store holds and whatever the database
   * would do, and changes nothing: the store is neither read nor written.
   */
  lemma FrontDoorRefusalIgnoresStore(s1: Store, s2: Store, g: Guild, f1: Faults, f2: Faults, i: Interaction)
    requires !PassesFrontDoor(g, i)
    ensures Redeem(s1, g, f1, i).outcome == Redeem(s2, g, f2, i).outcome
    ensures Redeem(s1, g, f1, i) == Step(Redeem(s1, g, f1, i).outcome, [], s1)
  {
  }

  /**
   * A requester who already holds a row is told so whatever code they
   * submit, and nothing changes.
   */
  lemma AlreadyReceivedWhateverCode(s: Store, g: Guild, f: Faults, i: Interaction, code: string)
    requires PassesFrontDoor(g, i) && !f.userQueryFails && HasIdentity(s.rows, i.userId)
    ensures Redeem(s, g, f, i) == Step(AlreadyReceived, [], s)
    ensures Redeem(s, g, f, i.(referenceCode := code)) == Step(AlreadyReceived, [], s)
  {
  }

  /**
   * Once the database reads succeed, the handler's verdict on the code
   * agrees with `checkReferenceCode`: unknown codes are invalid, used
   * codes are in use, and only unused codes reach the guild.
   */
  lemma CodeVerdictAgreesWithCheckReferenceCode(s: Store, g: Guild, f: Faults, i: Interaction)
    requires PassesFrontDoor(g, i) && !f.userQueryFails && !f.codeQueryFails && !HasIdentity(s.rows, i.userId)
    ensures var o := Redeem(s, g, f, i).outcome;
            && (o == InvalidReferenceCode <==> CheckReferenceCode(s, i.referenceCode) == UnknownCode)
            && (o == CodeInUse <==> CheckReferenceCode(s, i.referenceCode) == CodeUsed)
            && (o in {Approved, UpdateFailed} <==> CheckReferenceCode(s, i.referenceCode) == CodeUnused)
  {
  }

  /**
   * A redemption keeps the table's constraints and, given that no Discord
   * id was bound twice before, none is afterwards.
   */
  lemma RedeemPreservesInvariants(s: Store, g: Guild, f: Faults, i: Interaction)
    requires Valid(s) && IdentitiesUnique(s.rows)
    ensures Valid(Redeem(s, g, f, i).store)
    ensures IdentitiesUnique(Redeem(s, g, f, i).store.rows)
  {
  }

  /**
   * After a successful redemption the requester is told "already received"
   * on every later `getaccess` that reaches the database, whatever code
   * they submit.
   */
  lemma RedeemedRequesterIsRefused(s: Store, g: Guild, f: Faults, i: Interaction, g': Guild, f': Faults, i': Interaction)
    requires Redeem(s, g, f, i).outcome == Approved
    requires i'.userId == i.userId
    requires PassesFrontDoor(g', i') && !f'.userQueryFails
    ensures Redeem(Redeem(s, g, f, i).store, g', f', i') == Step(AlreadyReceived, [], Redeem(s, g, f, i).store)
  {
  }

  /**
   * After a successful redemption of a code, no later request for the
   * same code succeeds, whoever makes it: the code is redeemed at most
   * once when requests are handled one after another.
   */
  lemma RedeemedCodeIsNotRedeemedAgain(s: Store, g: Guild, f: Faults, i: Interaction, g': Guild, f': Faults, i': Interaction)
    requires Redeem(s, g, f, i).outcome == Approved
    requires i.userId != ""
    requires i'.referenceCode == i.referenceCode
    ensures Redeem(Redeem(s, g, f, i).store, g', f', i').outcome != Approved
  {
  }

  /**
   * A second requester who holds no row, presenting a code someone else
   * has redeemed, with the database reads succeeding, is told the code is
   * in use. One who holds a row is told "already received" first.
   */
  lemma RedeemedCodeIsInUseForOthers(s: Store, g: Guild, f: Faults, i: Interaction, g': Guild, f': Faults, i': Interaction)
    requires Redeem(s, g, f, i).outcome == Approved
    requires i.userId != ""
    requires i'.referenceCode == i.referenceCode
    requires PassesFrontDoor(g', i') && !f'.userQueryFails && !f'.codeQueryFails
    requires !HasIdentity(Redeem(s, g, f, i).store.rows, i'.userId)
    ensures Redeem(Redeem(s, g, f, i).store, g', f', i') == Step(CodeInUse, [], Redeem(s, g, f, i).store)
  {
  }

  /**
   * The four end-to-end cases: Jane Doe's code is redeemed by U1, who is
   * refused on a second try; U2 is then told the code is in use, and U3's
   * unknown code is invalid. Only the first request changes anything.
   */
  lemma JaneDoeScenario()
    ensures var jane := Member(1, "b1", "Jane", "Doe", "abc123", "role_42", None, 0);
            var s := Store([jane], 2);
            var g := Guild(Some({ManageNicknames, ManageRoles}), {"U1", "U2", "U3"}, {}, {"role_42"}, {});
            var ok := Faults(false, false, false);
            var ask := (u: string, code: string) => Interaction(true, GetAccessCommand, AllowedChannelId, u, code);
            var first := Redeem(s, g, ok, ask("U1", "abc123"));
            && first.outcome == Approved
            && first.effects == [NicknameSet("U1", "Jane Doe"), RoleAdded("U1", "role_42")]
            && first.store == Store([jane.(discordId := Some("U1"))], 2)
            && Redeem(first.store, g, ok, ask("U1", "xyz")) == Step(AlreadyReceived, [], first.store)
            && Redeem(first.store, g, ok, ask("U2", "abc123")) == Step(CodeInUse, [], first.store)
            && Redeem(first.store, g, ok, ask("U3", "doesnotexist")) == Step(InvalidReferenceCode, [], first.store)
  {
    var jane := Member(1, "b1", "Jane", "Doe", "abc123", "role_42", None, 0);
    var bound := jane.(discordId := Some("U1"));
    assert Nickname(jane) == "Jane Doe";
    assert BindDiscordId([jane], "abc123", "U1") == [bound];
    assert [bound][0].discordId == Some("U1");
    assert HasIdentity([bound], "U1");
    assert [bound][0].referenceCode == "abc123" && IsBound([bound][0]);
  }
}
