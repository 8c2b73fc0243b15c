/**
 * The Discord pallet's dispatchable calls as transitions of its storage.
 *
 * A call either fails with a dispatch error, in which case no storage is
 * written (the result carries no state), or returns the new storage: the
 * five storage maps and the events deposited so far.
 */
module DiscordPallet {
  import opened Base
  import opened DiscordPrimitives

  /** Who dispatched a call. */
  datatype Origin = Root | Signed(who: AccountId) | Unsigned

  /** The pallet's own errors, in declaration order. */
  datatype PalletError =
    | NoneValue
    | StorageOverflow
    | NoPermission
    | NotAMemberOfTheGuild
    | RoleDoesntExist
    | NotAVoiceChannel
    | NotATextChannel
    | ChannelDoesntExist

  /** A failed dispatch: a rejected origin or one of the pallet's errors. */
  datatype DispatchError = BadOrigin | Module(error: PalletError)

  datatype Event =
    | BotAdded(account: AccountId)
    | MemberAdded(account: AccountId, id: DiscordId)
    | MemberBanned(account: AccountId, id: DiscordId, reason: Name)
    | RoleCreated(name: Name, color: U64, hoist: bool, rolePosition: U8,
                  rolePermissions: seq<Permission>, mentionable: bool)
    | RoleAssigned(account: AccountId, id: DiscordId, roleName: Name)
    | ChannelCreated(name: Name, channelType: ChannelType, channelPosition: U64,
                     overwrites: seq<Overwrite>, topic: Name, nsfw: bool,
                     bitrate: Option<U64>, userLimit: Option<U64>,
                     rateLimitPerUser: Option<U64>, parentId: Option<DiscordId>,
                     voiceRegion: Option<Name>)
    | ChannelDeleted(name: Name)

  /** A ban: the member record as it was, and the reason given. */
  type Ban = (GuildMember, Name)

  /** The storage maps; `Bots` maps accounts to `()` and so is a set. */
  datatype State = State(
    members: map<AccountId, GuildMember>,
    banned: map<AccountId, Ban>,
    roles: map<Name, Role>,
    channels: map<Name, Channel>,
    bots: set<AccountId>,
    events: seq<Event>)

  const Genesis: State := State(map[], map[], map[], map[], {}, [])

  /** The origin is a signed account registered as a bot. */
  predicate IsBot(s: State, origin: Origin) {
    origin.Signed? && origin.who in s.bots
  }

  /** How a call from an origin that is not a bot is turned away. */
  function Rejection(origin: Origin): DispatchError {
    if origin.Signed? then Module(NoPermission) else BadOrigin
  }

  /** `ensure_signed` followed by the `Bots` lookup that opens every administrative call. */
  function EnsureBot(s: State, origin: Origin): (r: Result<AccountId, DispatchError>)
    ensures r.Ok? <==> IsBot(s, origin)
    ensures r.Err? ==> r.error == Rejection(origin)
  {
    match origin
    case Signed(who) => if who in s.bots then Ok(who) else Err(Module(NoPermission))
    case _ => Err(BadOrigin)
  }

  /** `register_bot`: only the root origin may add a bot account. */
  function RegisterBot(s: State, origin: Origin, account: AccountId): (r: Result<State, DispatchError>)
    ensures r.Ok? <==> origin.Root?
    ensures r.Err? ==> r.error == BadOrigin
    ensures r.Ok? ==> r.value.bots == s.bots + {account}
    ensures r.Ok? ==> r.value.events == s.events + [BotAdded(account)]
    ensures r.Ok? ==> r.value.(bots := s.bots, events := s.events) == s
  {
    if !origin.Root? then Err(BadOrigin)
    else Ok(s.(bots := s.bots + {account}, events := s.events + [BotAdded(account)]))
  }

  /** `add_member`: a bot records an account as a guild member with no roles. */
  function AddMember(s: State, origin: Origin, discordId: DiscordId, member: AccountId)
    : (r: Result<State, DispatchError>)
    ensures r.Ok? <==> IsBot(s, origin)
    ensures r.Err? ==> r.error == Rejection(origin)
    ensures r.Ok? ==> member in r.value.members
    ensures r.Ok? ==> var m := r.value.members[member];
      m.id == discordId && m.account == member && m.roles == [] && !m.deaf && !m.mute
    ensures r.Ok? ==> r.value.members - {member} == s.members - {member}
    ensures r.Ok? ==> r.value.events == s.events + [MemberAdded(member, discordId)]
    ensures r.Ok? ==> r.value.(members := s.members, events := s.events) == s
  {
    var _ :- EnsureBot(s, origin);
    var record := GuildMember(discordId, member, [], false, false);
    Ok(s.(members := s.members[member := record], events := s.events + [MemberAdded(member, discordId)]))
  }

  /** `ban_member`: a bot moves a member's record, with the reason, into the banned members. */
  function BanMember(s: State, origin: Origin, member: AccountId, reason: Name)
    : (r: Result<State, DispatchError>)
    ensures r.Ok? <==> IsBot(s, origin) && member in s.members
    ensures r.Err? ==> r.error == (if !IsBot(s, origin) then Rejection(origin) else Module(NotAMemberOfTheGuild))
    ensures r.Ok? ==> member !in r.value.members && r.value.members == s.members - {member}
    ensures r.Ok? ==> member in r.value.banned && r.value.banned[member] == (s.members[member], reason)
    ensures r.Ok? ==> r.value.banned - {member} == s.banned - {member}
    ensures r.Ok? ==> r.value.events == s.events + [MemberBanned(member, s.members[member].id, reason)]
    ensures r.Ok? ==> r.value.(members := s.members, banned := s.banned, events := s.events) == s
  {
    var _ :- EnsureBot(s, origin);
    if member !in s.members then Err(Module(NotAMemberOfTheGuild))
    else
      var taken := s.members[member];
      Ok(s.(members := s.members - {member},
            banned := s.banned[member := (taken, reason)],
            events := s.events + [MemberBanned(member, taken.id, reason)]))
  }

  /** `create_role`: a bot stores a role under its name, replacing any role of that name. */
  function CreateRole(s: State, origin: Origin, name: Name, color: U64, hoist: bool, position: U8,
                      permissions: seq<Permission>, mentionable: bool)
    : (r: Result<State, DispatchError>)
    ensures r.Ok? <==> IsBot(s, origin)
    ensures r.Err? ==> r.error == Rejection(origin)
    ensures r.Ok? ==> name in r.value.roles
    ensures r.Ok? ==> var role := r.value.roles[name];
      role.id.None? && role.name == name && role.color == color && role.hoist == hoist
      && role.position == position && role.permissions == permissions && !role.managed
      && role.mentionable == mentionable
    ensures r.Ok? ==> r.value.roles - {name} == s.roles - {name}
    ensures r.Ok? ==> r.value.events == s.events + [RoleCreated(name, color, hoist, position, permissions, mentionable)]
    ensures r.Ok? ==> r.value.(roles := s.roles, events := s.events) == s
  {
    var _ :- EnsureBot(s, origin);
    var role := Role(None, name, color, hoist, position, permissions, false, mentionable);
    Ok(s.(roles := s.roles[name := role],
          events := s.events + [RoleCreated(name, color, hoist, position, permissions, mentionable)]))
  }

  /**
   * `assign_role` as written: after the checks, the member record is taken
   * out of storage and the role is pushed onto that copy, which is then
   * dropped; `try_mutate` stores the emptied slot, so the member is removed.
   */
  function AssignRoleAsWritten(s: State, origin: Origin, target: AccountId, roleName: Name)
    : (r: Result<State, DispatchError>)
    ensures r.Ok? <==> IsBot(s, origin) && roleName in s.roles && target in s.members
    ensures r.Err? ==> r.error == (if !IsBot(s, origin) then Rejection(origin)
                                   else if roleName !in s.roles then Module(RoleDoesntExist)
                                   else Module(NotAMemberOfTheGuild))
    ensures r.Ok? ==> target !in r.value.members && r.value.members == s.members - {target}
    ensures r.Ok? ==> r.value.events == s.events + [RoleAssigned(target, s.members[target].id, roleName)]
    ensures r.Ok? ==> r.value.(members := s.members, events := s.events) == s
  {
    var _ :- EnsureBot(s, origin);
    if roleName !in s.roles then Err(Module(RoleDoesntExist))
    else if target !in s.members then Err(Module(NotAMemberOfTheGuild))
    else
      var taken := s.members[target];
      Ok(s.(members := s.members - {target},
            events := s.events + [RoleAssigned(target, taken.id, roleName)]))
  }

  /** `assign_role` as intended: the member stays, with the role appended to its roles. */
  function AssignRole(s: State, origin: Origin, target: AccountId, roleName: Name)
    : (r: Result<State, DispatchError>)
    ensures r.Ok? <==> IsBot(s, origin) && roleName in s.roles && target in s.members
    ensures r.Err? ==> r.error == (if !IsBot(s, origin) then Rejection(origin)
                                   else if roleName !in s.roles then Module(RoleDoesntExist)
                                   else Module(NotAMemberOfTheGuild))
    ensures r.Ok? ==> target in r.value.members
    ensures r.Ok? ==> r.value.members[target] == s.members[target].(roles := s.members[target].roles + [roleName])
    ensures r.Ok? ==> r.value.members - {target} == s.members - {target}
    ensures r.Ok? ==> r.value.events == s.events + [RoleAssigned(target, s.members[target].id, roleName)]
    ensures r.Ok? ==> r.value.(members := s.members, events := s.events) == s
  {
    var _ :- EnsureBot(s, origin);
    if roleName !in s.roles then Err(Module(RoleDoesntExist))
    else if target !in s.members then Err(Module(NotAMemberOfTheGuild))
    else
      var old_member := s.members[target];
      var updated := old_member.(roles := old_member.roles + [roleName]);
      Ok(s.(members := s.members[target := updated],
            events := s.events + [RoleAssigned(target, old_member.id, roleName)]))
  }

  /** Voice settings (bitrate, user limit, voice region) only on voice channels. */
  predicate VoiceSettingsFit(channelType: ChannelType, bitrate: Option<U64>, userLimit: Option<U64>,
                             voiceRegion: Option<Name>) {
    (bitrate.None? && userLimit.None? && voiceRegion.None?) || channelType == GuildVoice
  }

  /** A slow-mode rate limit only on text channels. */
  predicate RateLimitFits(channelType: ChannelType, rateLimitPerUser: Option<U64>) {
    rateLimitPerUser.None? || channelType == GuildText
  }

  /** A stored channel whose optional settings suit its type. */
  predicate ChannelSettingsFit(c: Channel) {
    VoiceSettingsFit(c.channelType, c.bitrate, c.userLimit, c.voiceRegion)
    && RateLimitFits(c.channelType, c.rateLimitPerUser)
  }

  /**
   * The argument checks of `create_channel`, in their order: a bitrate needs a
   * voice channel; so does any voice setting; a rate limit needs a text channel.
   */
  function ChannelArgumentError(channelType: ChannelType, bitrate: Option<U64>, userLimit: Option<U64>,
                                rateLimitPerUser: Option<U64>, voiceRegion: Option<Name>)
    : (r: Option<PalletError>)
    ensures r.None? <==> VoiceSettingsFit(channelType, bitrate, userLimit, voiceRegion)
                         && RateLimitFits(channelType, rateLimitPerUser)
    ensures r == Some(NotAVoiceChannel) <==> !VoiceSettingsFit(channelType, bitrate, userLimit, voiceRegion)
    ensures r == Some(NotATextChannel) <==> (VoiceSettingsFit(channelType, bitrate, userLimit, voiceRegion)
                                             && !RateLimitFits(channelType, rateLimitPerUser))
  {
    if bitrate.Some? && channelType != GuildVoice then Some(NotAVoiceChannel)
    else if (bitrate.Some? || userLimit.Some? || voiceRegion.Some?) && channelType != GuildVoice then Some(NotAVoiceChannel)
    else if rateLimitPerUser.Some? && channelType != GuildText then Some(NotATextChannel)
    else None
  }

  /** `create_channel`: a bot stores a channel under its name once its settings suit its type. */
  function CreateChannel(s: State, origin: Origin, channelType: ChannelType, position: U64,
                         overwrites: seq<Overwrite>, name: Name, topic: Name, nsfw: bool,
                         bitrate: Option<U64>, userLimit: Option<U64>, rateLimitPerUser: Option<U64>,
                         parentId: Option<DiscordId>, voiceRegion: Option<Name>)
    : (r: Result<State, DispatchError>)
    ensures r.Ok? <==> IsBot(s, origin) && ChannelArgumentError(channelType, bitrate, userLimit, rateLimitPerUser, voiceRegion).None?
    ensures r.Err? ==> r.error == (if !IsBot(s, origin) then Rejection(origin)
                                   else Module(ChannelArgumentError(channelType, bitrate, userLimit,
                                                                    rateLimitPerUser, voiceRegion).value))
    ensures r.Ok? ==> name in r.value.channels && ChannelSettingsFit(r.value.channels[name])
    ensures r.Ok? ==> (r.value.channels[name]
      == Channel(None, channelType, position, overwrites, name, topic, nsfw, bitrate, userLimit,
                 rateLimitPerUser, parentId, voiceRegion))
    ensures r.Ok? ==> r.value.channels - {name} == s.channels - {name}
    ensures r.Ok? ==> r.value.events == s.events + [ChannelCreated(name, channelType, position, overwrites, topic, nsfw,
                                                                   bitrate, userLimit, rateLimitPerUser, parentId, voiceRegion)]
    ensures r.Ok? ==> r.value.(channels := s.channels, events := s.events) == s
  {
    var _ :- EnsureBot(s, origin);
    match ChannelArgumentError(channelType, bitrate, userLimit, rateLimitPerUser, voiceRegion)
    case Some(e) => Err(Module(e))
    case None =>
      var channel := Channel(None, channelType, position, overwrites, name, topic, nsfw, bitrate, userLimit,
                             rateLimitPerUser, parentId, voiceRegion);
      var event := ChannelCreated(name, channelType, position, overwrites, topic, nsfw, bitrate, userLimit,
                                  rateLimitPerUser, parentId, voiceRegion);
      Ok(s.(channels := s.channels[name := channel], events := s.events + [event]))
  }

  /** `delete_channel`: a bot removes an existing channel. */
  function DeleteChannel(s: State, origin: Origin, name: Name): (r: Result<State, DispatchError>)
    ensures r.Ok? <==> IsBot(s, origin) && name in s.channels
    ensures r.Err? ==> r.error == (if !IsBot(s, origin) then Rejection(origin) else Module(ChannelDoesntExist))
    ensures r.Ok? ==> name !in r.value.channels && r.value.channels == s.channels - {name}
    ensures r.Ok? ==> r.value.events == s.events + [ChannelDeleted(name)]
    ensures r.Ok? ==> r.value.(channels := s.channels, events := s.events) == s
  {
    var _ :- EnsureBot(s, origin);
    if name !in s.channels then Err(Module(ChannelDoesntExist))
    else Ok(s.(channels := s.channels - {name}, events := s.events + [ChannelDeleted(name)]))
  }

  /** A call to the pallet with its arguments. */
  datatype Call =
    | RegisterBotCall(account: AccountId)
    | AddMemberCall(discordId: DiscordId, member: AccountId)
    | BanMemberCall(member: AccountId, reason: Name)
    | CreateRoleCall(name: Name, color: U64, hoist: bool, rolePosition: U8,
                     rolePermissions: seq<Permission>, mentionable: bool)
    | AssignRoleCall(target: AccountId, roleName: Name)
    | CreateChannelCall(channelType: ChannelType, channelPosition: U64, overwrites: seq<Overwrite>,
                        name: Name, topic: Name, nsfw: bool, bitrate: Option<U64>,
                        userLimit: Option<U64>, rateLimitPerUser: Option<U64>,
                        parentId: Option<DiscordId>, voiceRegion: Option<Name>)
    | DeleteChannelCall(name: Name)

  /** Which `assign_role` the pallet runs: the one in the code, or the corrected one. */
  datatype Version = AsWritten | Corrected

  /**
   * Routes a call to its dispatchable. Only the root origin registers bots;
   * every other call is refused to anyone who is not a registered bot,
   * unsigned origins with `BadOrigin` and other signed accounts with
   * `NoPermission`, before anything else is looked at. The two versions
   * differ only in whether a successful role assignment keeps its target.
   */
  function Dispatch(version: Version, s: State, origin: Origin, call: Call): (r: Result<State, DispatchError>)
    ensures call.RegisterBotCall? ==> (r.Ok? <==> origin.Root?)
    ensures !call.RegisterBotCall? && !IsBot(s, origin) ==> r == Err(Rejection(origin))
    ensures call.AssignRoleCall? && r.Ok? ==> (call.target in r.value.members <==> version == Corrected)
  {
    match call
    case RegisterBotCall(account) => RegisterBot(s, origin, account)
    case AddMemberCall(discordId, member) => AddMember(s, origin, discordId, member)
    case BanMemberCall(member, reason) => BanMember(s, origin, member, reason)
    case CreateRoleCall(name, color, hoist, position, permissions, mentionable) =>
      CreateRole(s, origin, name, color, hoist, position, permissions, mentionable)
    case AssignRoleCall(target, roleName) =>
      if version == AsWritten then AssignRoleAsWritten(s, origin, target, roleName)
      else
        assert version == Corrected;
        AssignRole(s, origin, target, roleName)
    case CreateChannelCall(channelType, position, overwrites, name, topic, nsfw, bitrate, userLimit,
                           rateLimitPerUser, parentId, voiceRegion) =>
      CreateChannel(s, origin, channelType, position, overwrites, name, topic, nsfw, bitrate, userLimit,
                    rateLimitPerUser, parentId, voiceRegion)
    case DeleteChannelCall(name) => DeleteChannel(s, origin, name)
  }
}
