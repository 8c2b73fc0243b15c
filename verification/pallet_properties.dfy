/**
 * Properties of the Discord pallet's calls: the storage invariant every call
 * keeps, who may call what, one event per successful call, and how the calls
 * compose.
 */
module DiscordPalletProperties {
  import opened Base
  import opened DiscordPrimitives
  import opened DiscordPallet

  /** Every member record is stored under its own account. */
  predicate MembersKeyed(s: State) {
    forall a | a in s.members :: s.members[a].account == a
  }

  /** Every ban is stored under the banned member's account. */
  predicate BansKeyed(s: State) {
    forall a | a in s.banned :: s.banned[a].0.account == a
  }

  /** Every role is stored under its name, without a Discord id, and is not managed. */
  predicate RolesKeyed(s: State) {
    forall n | n in s.roles :: s.roles[n].name == n && s.roles[n].id.None? && !s.roles[n].managed
  }

  /** Every channel is stored under its name, without a Discord id, with settings that suit its type. */
  predicate ChannelsKeyed(s: State) {
    forall n | n in s.channels ::
      s.channels[n].name == n && s.channels[n].id.None? && ChannelSettingsFit(s.channels[n])
  }

  /** Every role a member or a banned member holds exists. */
  predicate HeldRolesExist(s: State) {
    && (forall a, n | a in s.members && n in s.members[a].roles :: n in s.roles)
    && (forall a, n | a in s.banned && n in s.banned[a].0.roles :: n in s.roles)
  }

  /** The storage invariant. */
  predicate Consistent(s: State) {
    MembersKeyed(s) && BansKeyed(s) && RolesKeyed(s) && ChannelsKeyed(s) && HeldRolesExist(s)
  }

  lemma GenesisConsistent()
    ensures Consistent(Genesis)
  {
  }

  lemma AddMemberConsistent(s: State, origin: Origin, discordId: DiscordId, member: AccountId)
    requires Consistent(s)
    ensures var r := AddMember(s, origin, discordId, member); r.Ok? ==> Consistent(r.value)
  {
  }

  lemma BanMemberConsistent(s: State, origin: Origin, member: AccountId, reason: Name)
    requires Consistent(s)
    ensures var r := BanMember(s, origin, member, reason); r.Ok? ==> Consistent(r.value)
  {
  }

  lemma CreateRoleConsistent(s: State, origin: Origin, name: Name, color: U64, hoist: bool, position: U8,
                             permissions: seq<Permission>, mentionable: bool)
    requires Consistent(s)
    ensures var r := CreateRole(s, origin, name, color, hoist, position, permissions, mentionable);
            r.Ok? ==> Consistent(r.value)
  {
  }

  lemma AssignRoleConsistent(s: State, origin: Origin, target: AccountId, roleName: Name)
    requires Consistent(s)
    ensures var r := AssignRole(s, origin, target, roleName); r.Ok? ==> Consistent(r.value)
  {
  }

  /** The role assignment as written also keeps the invariant: it only removes a member. */
  lemma AssignRoleAsWrittenConsistent(s: State, origin: Origin, target: AccountId, roleName: Name)
    requires Consistent(s)
    ensures var r := AssignRoleAsWritten(s, origin, target, roleName); r.Ok? ==> Consistent(r.value)
  {
  }

  lemma CreateChannelConsistent(s: State, origin: Origin, channelType: ChannelType, position: U64,
                                overwrites: seq<Overwrite>, name: Name, topic: Name, nsfw: bool,
                                bitrate: Option<U64>, userLimit: Option<U64>, rateLimitPerUser: Option<U64>,
                                parentId: Option<DiscordId>, voiceRegion: Option<Name>)
    requires Consistent(s)
    ensures var r := CreateChannel(s, origin, channelType, position, overwrites, name, topic, nsfw, bitrate,
                                   userLimit, rateLimitPerUser, parentId, voiceRegion);
            r.Ok? ==> Consistent(r.value)
  {
  }

  /** Every successful call keeps the storage invariant, in the pallet as written and as corrected. */
  lemma DispatchConsistent(version: Version, s: State, origin: Origin, call: Call)
    requires Consistent(s)
    ensures var r := Dispatch(version, s, origin, call); r.Ok? ==> Consistent(r.value)
  {
    match call
    case RegisterBotCall(_) =>
    case AddMemberCall(discordId, member) =>
      AddMemberConsistent(s, origin, discordId, member);
    case BanMemberCall(member, reason) =>
      BanMemberConsistent(s, origin, member, reason);
    case CreateRoleCall(name, color, hoist, position, permissions, mentionable) =>
      CreateRoleConsistent(s, origin, name, color, hoist, position, permissions, mentionable);
    case AssignRoleCall(target, roleName) =>
      if version == AsWritten {
        AssignRoleAsWrittenConsistent(s, origin, target, roleName);
      } else {
        AssignRoleConsistent(s, origin, target, roleName);
      }
    case CreateChannelCall(channelType, position, overwrites, name, topic, nsfw, bitrate, userLimit,
                           rateLimitPerUser, parentId, voiceRegion) =>
      CreateChannelConsistent(s, origin, channelType, position, overwrites, name, topic, nsfw, bitrate,
                              userLimit, rateLimitPerUser, parentId, voiceRegion);
    case DeleteChannelCall(_) =>
  }

  /** A successful call deposits exactly one event after the earlier ones. */
  lemma DispatchDepositsOneEvent(version: Version, s: State, origin: Origin, call: Call)
    ensures var r := Dispatch(version, s, origin, call);
            r.Ok? ==> |r.value.events| == |s.events| + 1 && r.value.events[..|s.events|] == s.events
  {
    var r := Dispatch(version, s, origin, call);
    if r.Ok? {
      var e :| r.value.events == s.events + [e];
      assert (s.events + [e])[..|s.events|] == s.events;
    }
  }

  /** Bots are never removed, and only `register_bot` adds them. */
  lemma BotsOnlyGrow(version: Version, s: State, origin: Origin, call: Call)
    ensures var r := Dispatch(version, s, origin, call); r.Ok? ==> s.bots <= r.value.bots
    ensures var r := Dispatch(version, s, origin, call); r.Ok? && !call.RegisterBotCall? ==> r.value.bots == s.bots
  {
  }

  /** Adding a member twice stores the same guild as adding it once. */
  lemma AddMemberIdempotent(s: State, origin: Origin, discordId: DiscordId, member: AccountId)
    requires AddMember(s, origin, discordId, member).Ok?
    ensures var once := AddMember(s, origin, discordId, member).value;
            var twice := AddMember(once, origin, discordId, member);
            twice.Ok? && twice.value.(events := once.events) == once
  {
  }

  /** A banned member is banned with the record it was added with, and can be banned only once. */
  lemma AddThenBan(s: State, bot: AccountId, discordId: DiscordId, member: AccountId, reason: Name)
    requires bot in s.bots
    ensures var added := AddMember(s, Signed(bot), discordId, member);
            added.Ok? && BanMember(added.value, Signed(bot), member, reason).Ok?
    ensures var t := BanMember(AddMember(s, Signed(bot), discordId, member).value, Signed(bot), member, reason).value;
            && member !in t.members
            && t.banned[member] == (GuildMember(discordId, member, [], false, false), reason)
            && t.events == s.events + [MemberAdded(member, discordId), MemberBanned(member, discordId, reason)]
            && BanMember(t, Signed(bot), member, reason) == Err(Module(NotAMemberOfTheGuild))
  {
    var added := AddMember(s, Signed(bot), discordId, member).value;
    assert added.members[member] == GuildMember(discordId, member, [], false, false);
  }

  /** Deleting a channel that was just created leaves the channels as they were before. */
  lemma CreateThenDeleteChannel(s: State, origin: Origin, channelType: ChannelType, position: U64,
                                overwrites: seq<Overwrite>, name: Name, topic: Name, nsfw: bool,
                                bitrate: Option<U64>, userLimit: Option<U64>, rateLimitPerUser: Option<U64>,
                                parentId: Option<DiscordId>, voiceRegion: Option<Name>)
    requires name !in s.channels
    requires CreateChannel(s, origin, channelType, position, overwrites, name, topic, nsfw, bitrate,
                           userLimit, rateLimitPerUser, parentId, voiceRegion).Ok?
    ensures var created := CreateChannel(s, origin, channelType, position, overwrites, name, topic, nsfw,
                                         bitrate, userLimit, rateLimitPerUser, parentId, voiceRegion).value;
            var deleted := DeleteChannel(created, origin, name);
            deleted.Ok? && deleted.value.(events := s.events) == s
            && DeleteChannel(deleted.value, origin, name) == Err(Module(ChannelDoesntExist))
  {
    var created := CreateChannel(s, origin, channelType, position, overwrites, name, topic, nsfw,
                                 bitrate, userLimit, rateLimitPerUser, parentId, voiceRegion).value;
    assert created.channels - {name} == s.channels;
  }

  /** No channel may carry both a bitrate and a slow-mode rate limit, whatever its type. */
  lemma BitrateAndRateLimitConflict(channelType: ChannelType, bitrate: Option<U64>, userLimit: Option<U64>,
                                    rateLimitPerUser: Option<U64>, voiceRegion: Option<Name>)
    requires bitrate.Some? && rateLimitPerUser.Some?
    ensures ChannelArgumentError(channelType, bitrate, userLimit, rateLimitPerUser, voiceRegion).Some?
  {
  }

  /**
   * `assign_role` as written loses the member it assigns a role to: after a
   * successful call the target is no longer in the guild, so the role it was
   * given is stored nowhere.
   */
  lemma AssignRoleAsWrittenDropsMember(s: State, origin: Origin, target: AccountId, roleName: Name)
    requires AssignRoleAsWritten(s, origin, target, roleName).Ok?
    ensures target !in AssignRoleAsWritten(s, origin, target, roleName).value.members
    ensures AssignRoleAsWritten(s, origin, target, roleName).value != AssignRole(s, origin, target, roleName).value
  {
    assert target in AssignRole(s, origin, target, roleName).value.members;
  }

  const Bot: AccountId := 1
  const Alice: AccountId := 2
  const Moderator: Name := [109, 111, 100]

  /** The guild after registering a bot, adding Alice and creating a role. */
  function SetUp(): (s: State)
    ensures IsBot(s, Signed(Bot)) && Alice in s.members && Moderator in s.roles
  {
    var s1 := RegisterBot(Genesis, Root, Bot).value;
    var s2 := AddMember(s1, Signed(Bot), 7, Alice).value;
    CreateRole(s2, Signed(Bot), Moderator, 0, false, 0, [], false).value
  }

  /** The concrete run showing the defect: assigning Alice a role removes her from the guild. */
  lemma AssignRoleAsWrittenScenario()
    ensures var r := AssignRoleAsWritten(SetUp(), Signed(Bot), Alice, Moderator);
            r.Ok? && Alice !in r.value.members
  {
  }

  /** The corrected call keeps Alice and gives her the role. */
  lemma AssignRoleScenario()
    ensures var r := AssignRole(SetUp(), Signed(Bot), Alice, Moderator);
            r.Ok? && Alice in r.value.members && r.value.members[Alice].roles == [Moderator]
  {
    var s := SetUp();
    assert s.members[Alice].roles == [];
  }
}
