/**
 * The records the Discord pallet keeps in storage: guild members, roles,
 * channels, channel types and the Discord permission flags.
 */
module DiscordPrimitives {
  import opened Base

  /** Chain account identifiers and Discord snowflakes are only compared, never computed on. */
  type AccountId = nat
  type DiscordId = nat

  /** Names, topics, ban reasons and voice regions are raw byte strings (`Vec<u8>`). */
  type Name = Bytes

  /** The fixed-width integers of the pallet's call arguments. */
  type U8 = Byte
  const U64Limit: nat := 0x1_0000_0000_0000_0000
  type U64 = n: int | 0 <= n < U64Limit

  datatype GuildMember = GuildMember(
    id: DiscordId,
    account: AccountId,
    roles: seq<Name>,
    deaf: bool,
    mute: bool)

  datatype Role = Role(
    id: Option<DiscordId>,
    name: Name,
    color: U64,
    hoist: bool,
    position: U8,
    permissions: seq<Permission>,
    managed: bool,
    mentionable: bool)

  datatype ChannelType =
    | GuildText
    | GuildVoice
    | GuildCategory
    | GuildNews
    | GuildNewsThread
    | GuildPublicThread
    | GuildPrivateThread
    | GuildStageVoice

  /** A permission overwrite: the Discord id it applies to and the permissions it grants. */
  type Overwrite = (DiscordId, seq<Permission>)

  /** A channel, with the fields the `create_channel` call stores. */
  datatype Channel = Channel(
    id: Option<DiscordId>,
    channelType: ChannelType,
    position: U64,
    permissions: seq<Overwrite>,
    name: Name,
    topic: Name,
    nsfw: bool,
    bitrate: Option<U64>,
    userLimit: Option<U64>,
    rateLimitPerUser: Option<U64>,
    parentId: Option<DiscordId>,
    voiceRegion: Option<Name>)

  /** Discord permission flags; each one stands for the bit numbered by its discriminant. */
  datatype Permission =
    | CreateInstantInvite
    | KickMembers
    | BanMembers
    | Administrator
    | ManageChannels
    | ManageGuild
    | AddReactions
    | ViewAuditLog
    | PrioritySpeaker
    | Stream
    | ViewChannel
    | SendMessages
    | SendTtsMessages
    | ManageMessages
    | EmbedLinks
    | AttachFiles
    | ReadMessageHistory
    | MentionEveryone
    | UseExternalEmojis
    | ViewGuildInsights
    | Connect
    | Speak
    | MuteMembers
    | DeafenMembers
    | MoveMembers
    | UseVad
    | ChangeNickname
    | ManageNicknames
    | ManageRoles
    | ManageWebhooks
    | ManageEmojisAndStickers
    | UseApplicationCommands
    | RequestToSpeak
    | ManageEvents
    | ManageThreads
    | CreatePublicThreads
    | CreatePrivateThreads
    | UseExternalStickers
    | SendMessagesInThreads
    | StartEmbeddedActivities
    | ModerateMembers

  /** Number of permission flags. */
  const PermissionCount: nat := 41

  /** The explicit discriminant the enum declares for each flag. */
  function Discriminant(p: Permission): (d: nat)
    ensures d < PermissionCount
  {
    match p
    case CreateInstantInvite => 0
    case KickMembers => 1
    case BanMembers => 2
    case Administrator => 3
    case ManageChannels => 4
    case ManageGuild => 5
    case AddReactions => 6
    case ViewAuditLog => 7
    case PrioritySpeaker => 8
    case Stream => 9
    case ViewChannel => 10
    case SendMessages => 11
    case SendTtsMessages => 12
    case ManageMessages => 13
    case EmbedLinks => 14
    case AttachFiles => 15
    case ReadMessageHistory => 16
    case MentionEveryone => 17
    case UseExternalEmojis => 18
    case ViewGuildInsights => 19
    case Connect => 20
    case Speak => 21
    case MuteMembers => 22
    case DeafenMembers => 23
    case MoveMembers => 24
    case UseVad => 25
    case ChangeNickname => 26
    case ManageNicknames => 27
    case ManageRoles => 28
    case ManageWebhooks => 29
    case ManageEmojisAndStickers => 30
    case UseApplicationCommands => 31
    case RequestToSpeak => 32
    case ManageEvents => 33
    case ManageThreads => 34
    case CreatePublicThreads => 35
    case CreatePrivateThreads => 36
    case UseExternalStickers => 37
    case SendMessagesInThreads => 38
    case StartEmbeddedActivities => 39
    case ModerateMembers => 40
  }

  /** The flag with discriminant `d`, if there is one: the decoder side of the enum. */
  function FromDiscriminant(d: nat): (r: Option<Permission>)
    ensures r.Some? <==> d < PermissionCount
  {
    match d
    case 0 => Some(CreateInstantInvite)
    case 1 => Some(KickMembers)
    case 2 => Some(BanMembers)
    case 3 => Some(Administrator)
    case 4 => Some(ManageChannels)
    case 5 => Some(ManageGuild)
    case 6 => Some(AddReactions)
    case 7 => Some(ViewAuditLog)
    case 8 => Some(PrioritySpeaker)
    case 9 => Some(Stream)
    case 10 => Some(ViewChannel)
    case 11 => Some(SendMessages)
    case 12 => Some(SendTtsMessages)
    case 13 => Some(ManageMessages)
    case 14 => Some(EmbedLinks)
    case 15 => Some(AttachFiles)
    case 16 => Some(ReadMessageHistory)
    case 17 => Some(MentionEveryone)
    case 18 => Some(UseExternalEmojis)
    case 19 => Some(ViewGuildInsights)
    case 20 => Some(Connect)
    case 21 => Some(Speak)
    case 22 => Some(MuteMembers)
    case 23 => Some(DeafenMembers)
    case 24 => Some(MoveMembers)
    case 25 => Some(UseVad)
    case 26 => Some(ChangeNickname)
    case 27 => Some(ManageNicknames)
    case 28 => Some(ManageRoles)
    case 29 => Some(ManageWebhooks)
    case 30 => Some(ManageEmojisAndStickers)
    case 31 => Some(UseApplicationCommands)
    case 32 => Some(RequestToSpeak)
    case 33 => Some(ManageEvents)
    case 34 => Some(ManageThreads)
    case 35 => Some(CreatePublicThreads)
    case 36 => Some(CreatePrivateThreads)
    case 37 => Some(UseExternalStickers)
    case 38 => Some(SendMessagesInThreads)
    case 39 => Some(StartEmbeddedActivities)
    case 40 => Some(ModerateMembers)
    case _ => None
  }

  /** Discriminants name flags one-to-one: decoding a flag's discriminant gives the flag back. */
  lemma DiscriminantRoundTrip(p: Permission)
    ensures FromDiscriminant(Discriminant(p)) == Some(p)
  {
  }

  /** ... and encoding the flag found under a discriminant gives the discriminant back. */
  lemma FromDiscriminantRoundTrip(d: nat)
    requires d < PermissionCount
    ensures FromDiscriminant(d).Some? && Discriminant(FromDiscriminant(d).value) == d
  {
  }

  /** No two flags share a discriminant. */
  lemma DiscriminantInjective(p: Permission, q: Permission)
    ensures Discriminant(p) == Discriminant(q) ==> p == q
  {
    DiscriminantRoundTrip(p);
    DiscriminantRoundTrip(q);
  }
}
