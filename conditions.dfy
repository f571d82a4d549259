/** The ordered access checks that commands, context-menu actions and legacy
 *  commands run before `run`. Each handler passes its own fixed messages. */
module Conditions {
  import opened Common

  /** The access fields a descriptor may declare. */
  datatype Access = Access(
    guildId: Option<string>,              // the command is scoped to this guild
    allowDm: Option<bool>,                // `false` forbids direct messages
    allowedGuilds: Option<seq<string>>,
    allowedUsers: Option<seq<string>>)

  /** Where an event comes from: its guild (`null` in a DM) and its user. */
  datatype Origin = Origin(guildId: Option<string>, userId: string)

  datatype Check = FixedGuild | NoDirectMessages | GuildAllowList | UserAllowList

  /** The order in which the checks run. */
  const Order: seq<Check> := [FixedGuild, NoDirectMessages, GuildAllowList, UserAllowList]

  /** When a single check fails, read with JavaScript truthiness: an empty
   *  `guildId` declares no scope, only an explicit `allowDm === false` forbids
   *  DMs, and a declared allow-list (even an empty one) must contain the id,
   *  which a DM's `null` guild never is. */
  predicate Fails(a: Access, o: Origin, c: Check) {
    match c
    case FixedGuild => a.guildId.Some? && a.guildId.value != "" && o.guildId != a.guildId
    case NoDirectMessages => a.allowDm == Some(false) && o.guildId.None?
    case GuildAllowList => a.allowedGuilds.Some? && !(o.guildId.Some? && o.guildId.value in a.allowedGuilds.value)
    case UserAllowList => a.allowedUsers.Some? && o.userId !in a.allowedUsers.value
  }

  /** The fixed message of each check; the two guild checks share one. */
  datatype Messages = Messages(guild: string, dm: string, user: string)

  const CommandMessages := Messages(
    "This command is not available in this guild.",
    "This command is not available in DMs.",
    "You are not allowed to use this command.")

  const ActionMessages := Messages(
    "This action is not available in this guild.",
    "This action is not available in DMs.",
    "You are not allowed to use this action.")

  function Message(ms: Messages, c: Check): string {
    match c
    case FixedGuild => ms.guild
    case NoDirectMessages => ms.dm
    case GuildAllowList => ms.guild
    case UserAllowList => ms.user
  }

  /** Reference definition: the first check of `checks` that fails. */
  function FirstFailing(a: Access, o: Origin, checks: seq<Check>): Option<Check> {
    if |checks| == 0 then None
    else if Fails(a, o, checks[0]) then Some(checks[0])
    else FirstFailing(a, o, checks[1..])
  }

  /** `checkConditionals`: the message of the first failing check, or `undefined`. */
  function CheckConditionals(ms: Messages, a: Access, o: Origin): (r: Option<string>)
    ensures r.None? <==> forall c: Check :: !Fails(a, o, c)
    ensures r.Some? ==> r.value == ms.guild || r.value == ms.dm || r.value == ms.user
  {
    if a.guildId.Some? && a.guildId.value != "" && o.guildId != a.guildId then
      assert Fails(a, o, FixedGuild);
      Some(ms.guild)
    else if a.allowDm == Some(false) && o.guildId.None? then
      assert Fails(a, o, NoDirectMessages);
      Some(ms.dm)
    else if a.allowedGuilds.Some? && !(o.guildId.Some? && o.guildId.value in a.allowedGuilds.value) then
      assert Fails(a, o, GuildAllowList);
      Some(ms.guild)
    else if a.allowedUsers.Some? && o.userId !in a.allowedUsers.value then
      assert Fails(a, o, UserAllowList);
      Some(ms.user)
    else
      None
  }

  /** The if-chain reports exactly the first failing check in `Order`. */
  lemma CheckConditionalsIsFirstFailure(ms: Messages, a: Access, o: Origin)
    ensures CheckConditionals(ms, a, o) == match FirstFailing(a, o, Order)
                                             case None => None
                                             case Some(c) => Some(Message(ms, c))
  {
    var rest := [NoDirectMessages, GuildAllowList, UserAllowList];
    assert Order[1..] == rest && rest[1..] == [GuildAllowList, UserAllowList];
    assert rest[1..][1..] == [UserAllowList] && rest[1..][1..][1..] == [];
    if Fails(a, o, FixedGuild) {
    } else if Fails(a, o, NoDirectMessages) {
    } else if Fails(a, o, GuildAllowList) {
      assert FirstFailing(a, o, Order) == FirstFailing(a, o, rest[1..]);
    } else {
      assert FirstFailing(a, o, Order) == FirstFailing(a, o, rest[1..]);
      assert FirstFailing(a, o, rest[1..]) == FirstFailing(a, o, rest[1..][1..]);
      if Fails(a, o, UserAllowList) {
        assert FirstFailing(a, o, rest[1..][1..]) == Some(UserAllowList);
      } else {
        assert FirstFailing(a, o, rest[1..][1..]) == FirstFailing(a, o, []) == None;
      }
    }
  }

  /** A DM never passes a declared guild allow-list, whatever it holds. */
  lemma DirectMessageFailsGuildAllowList(ms: Messages, a: Access, o: Origin)
    requires o.guildId.None? && a.allowedGuilds.Some?
    requires a.guildId.None? && a.allowDm != Some(false)
    ensures CheckConditionals(ms, a, o) == Some(ms.guild)
  {
  }

  /** When the checks pass, a scoped descriptor was used in its own guild and
   *  the user is on its allow-list. */
  lemma PassingMeansAdmitted(ms: Messages, a: Access, o: Origin)
    requires CheckConditionals(ms, a, o).None?
    ensures a.guildId.Some? && a.guildId.value != "" ==> o.guildId == a.guildId
    ensures a.allowedGuilds.Some? ==> o.guildId.Some? && o.guildId.value in a.allowedGuilds.value
    ensures a.allowedUsers.Some? ==> o.userId in a.allowedUsers.value
  {
    assert !Fails(a, o, FixedGuild) && !Fails(a, o, GuildAllowList) && !Fails(a, o, UserAllowList);
  }
}
