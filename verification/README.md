# Discord guild on a Substrate chain — a Dafny model

This project models three pieces of a system that mirrors a Discord guild on a
Substrate blockchain. It proves properties of each.

1. **The event decoder** of the vendored `subxt` client (`subxt/src/events.rs`).
   A block's events arrive as one byte buffer:
   - a compact `u32` count;
   - then, for each record, its phase, the pallet and variant indices, the event's fields, and a list of topic hashes.

   The decoder uses no compile-time types. It finds each event in the runtime's
   metadata and walks the registry's type definitions field by field: composites,
   variants, sequences, arrays, tuples, primitives and compact integers. It
   re-emits the bytes of each event's fields as the event's raw data.
   `RawEvent::as_event` then hands that data to a typed decoder when the
   pallet and event names match.
2. **The Discord pallet's dispatch rules** (`pallet-discord/src/lib.rs`). They are
   pure transitions over five storage maps: guild members, banned members,
   roles, channels and bot accounts. The events deposited so far are part of
   the state. Every administrative call must come from a registered bot; only
   root registers bots. `Dispatch` takes a `Version`. `AsWritten` runs
   `assign_role` as the code does, and `Corrected` runs it as intended (see
   "Findings"). The dispatch lemmas hold for both versions.
3. **The bot's permission mask** (`discord-bot/src/util.rs`). Starting from zero,
   it ORs `2^d` into a `u64` for each listed permission flag, where `d` is the
   flag's discriminant.

Modules, in dependency order:

| file | module | contents |
|---|---|---|
| `base.dfy` | `Base` | bytes, `Option`, `Result`, powers of two and of 256 |
| `little_endian.dfy` | `LittleEndian` | fixed-width little-endian integers |
| `scale.dfy` | `Scale` | byte reads, well-formed UTF-8, the compact integer encoding and its canonical decoder |
| `registry.dfy` | `TypeRegistry` | type definitions, the registry, the event catalog, variant lookup by declared index |
| `walker.dfy` | `TypeWalker` | the decoder's error type and the schema-driven type walker |
| `values.dfy` | `TypedValues` | typed values and their encoding; round trip and truncation of the walker |
| `events.dfy` | `EventsDecoder` | phases, topics, record and block decoding, `as_event`; round trips and truncation of whole blocks |
| `events_examples.dfy` | `EventsExamples` | the repository's decoder tests as lemmas about concrete blocks |
| `primitives.dfy` | `DiscordPrimitives` | guild member, role, channel, channel type, permission flags and discriminants |
| `pallet.dfy` | `DiscordPallet` | origins, errors, events, storage, the seven calls and their dispatch in both versions |
| `pallet_properties.dfy` | `DiscordPalletProperties` | storage invariant, event log, bots, call compositions, the role-assignment defect |
| `permission_mask.dfy` | `PermissionMask` | bitwise or on unsigned numbers and `calculate_permissions` |

Modelling choices:
- The walker's output is re-encoded bytes. Every decode it accepts is canonical, so the output equals the bytes consumed, and the contracts state exactly that.
- The compact integer rules follow the `parity-scale-codec` crate, which is not part of this model. A compact value is accepted for a target width only when:
  - its mode byte fits that width;
  - it is written in the shortest mode;
  - its value fits the target type.
- `Phase` and the hash type come from `frame_system`, which is not part of this model. The phase layout is a tag byte, followed by a little-endian `u32` for `ApplyExtrinsic`. Hashes have a fixed byte width, carried by the decoder.
- Recursion through the type registry is bounded by a `fuel` budget. Running out of fuel is the typed error `RecursionLimit`.

## Model

| member | source | states |
|---|---|---|
| Scale.ReadBytes | subxt/src/events.rs:101-102 | reading `n` bytes succeeds exactly when `n` bytes remain; it splits the input into the bytes read and the rest; otherwise it fails with `UnexpectedEof` |
| Scale.DecodeCompact | subxt/src/events.rs:93 | a decoded compact value fits the target width, and decoding consumes at least one byte |
| Scale.CompactRoundTrip | subxt/src/events.rs:254-283 | every value that fits the width decodes back from `EncodeCompact`, the shortest-mode encoding that `Compact<T>::encode_to` re-emits, and the bytes after it are left untouched |
| Scale.CompactCanonical | subxt/src/events.rs:254-283 | every accepted compact input is exactly the shortest encoding of its value followed by the rest, so re-encoding what was read reproduces the bytes consumed |
| Scale.CompactExtends | subxt/src/events.rs:93 | appending bytes to the input does not change a successful decode (the rest grows by the appended bytes) or any error other than running out of input |
| LittleEndian.FromToLE | subxt/src/events.rs:230-245 | reading back a value written in `k` little-endian bytes gives the value |
| LittleEndian.ToFromLE | subxt/src/events.rs:230-245 | writing back the value read from some bytes gives those bytes |
| TypeRegistry.FindVariant | subxt/src/events.rs:188-194 | the variant found is the first whose declared index equals the tag; nothing is found exactly when no variant declares that index |
| TypeWalker.WriteReadInt | subxt/src/events.rs:230-245 | re-encoding a decoded fixed-width integer, signed or unsigned, reproduces its bytes |
| TypeWalker.ReadWriteInt | subxt/src/events.rs:230-245 | decoding the encoding of an in-range integer gives the integer |
| TypeWalker.DecodeFixed | subxt/src/events.rs:230-245 | a fixed-width integer decodes exactly when its width in bytes is available, and otherwise fails with `UnexpectedEof`; a success re-emits exactly the bytes consumed |
| TypeWalker.DecodeStr | subxt/src/events.rs:229 | a string fails only with codec errors. Once its length prefix and body are available, it succeeds exactly when the body is well-formed UTF-8 and otherwise fails with `InvalidUtf8`; a success re-emits exactly the bytes consumed |
| TypeWalker.DecodePrimitive | subxt/src/events.rs:220-253 | a primitive fails with `UnsupportedPrimitive` exactly for `Char`, `U256` and `I256`; every other failure is a codec error. A boolean decodes exactly when a byte 0 or 1 is there. A success re-emits exactly the bytes consumed |
| TypeWalker.DecodeCompactPrimitive | subxt/src/events.rs:259-281 | a compact integer over a primitive fails with `InvalidCompactPrimitive` exactly when the primitive is not unsigned. Otherwise it succeeds exactly when the compact decode for that width does, and fails with that decode's codec error. A success re-emits exactly the bytes consumed |
| TypeWalker.DecodeCompactType | subxt/src/events.rs:254-319 | an unresolved inner type fails with `TypeNotFound` carrying the outer id. A composite inner type with other than one field fails with `InvalidCompactType`. So does a single field that is not a primitive. An unresolved single field fails with `TypeNotFound` carrying the field's id. Any inner shape other than a primitive or a composite fails with `InvalidCompactType`. A primitive inner type or single field is decoded as a compact primitive. A success re-emits exactly the bytes consumed |
| TypeWalker.DecodeType | subxt/src/events.rs:158-325 | an unresolved type id fails with `TypeNotFound(id)`, and a bit sequence fails with `Unimplemented`. Running out of the recursion budget fails with `RecursionLimit`. Every successful decode re-emits exactly the bytes it consumed: output followed by the rest is the input |
| TypeWalker.DecodeVariant | subxt/src/events.rs:185-199 | empty input fails with `UnexpectedEof`. A tag byte that no variant declares as its index fails with `VariantNotFound(tag)`. A success starts with the tag of a declared variant and re-emits its fields' bytes, exactly as consumed |
| TypeWalker.DecodeSequence | subxt/src/events.rs:200-207 | a sequence decode re-emits its length prefix and its items' bytes, exactly as consumed |
| TypeWalker.DecodeFields | subxt/src/events.rs:179-184 | a decode of consecutive fields re-emits exactly the bytes it consumes |
| TypeWalker.DecodeRepeat | subxt/src/events.rs:208-213 | a decode of `count` items of one type re-emits exactly the bytes it consumes |
| TypeWalker.TypeExtends | subxt/src/events.rs:158-325 | decoding a type from a longer input gives the same output, with the extra bytes left in the rest; an error other than running out of input stays the same |
| TypedValues.RoundTrip | subxt/src/events.rs:158-325 | the walker reads back the encoding of any well-typed value within the recursion budget; its output is that encoding and the following bytes stay untouched |
| TypedValues.FieldsRoundTrip | subxt/src/events.rs:140-156 | an event's field values, encoded in order, are read back field by field to exactly their encoding |
| TypedValues.CompactRoundTripAt | subxt/src/events.rs:254-319 | a compact field reads back the compact encoding of any value that fits its unsigned type |
| TypedValues.Truncation | subxt/src/events.rs:158-325 | every proper prefix of a well-typed value's encoding fails with `UnexpectedEof`, never with a wrong value |
| EventsDecoder.DecodePhase | subxt/src/events.rs:100 | a decoded phase is valid and re-encodes to the bytes consumed; a tag above 2 fails with `InvalidPhase` |
| EventsDecoder.PhaseRoundTrip | subxt/src/events.rs:100 | every valid phase decodes back from its encoding |
| EventsDecoder.DecodeHashes | subxt/src/events.rs:128 | reading `count` hashes fails exactly when fewer than `count * width` bytes remain, with `UnexpectedEof`; otherwise it yields `count` hashes of the width that concatenate to the bytes consumed |
| EventsDecoder.DecodeTopics | subxt/src/events.rs:127-129 | decoded topics are hashes of the chain's width; their compact count and concatenation are exactly the bytes consumed |
| EventsDecoder.HashesRoundTrip | subxt/src/events.rs:128 | hashes of the width are read back from their concatenation |
| EventsDecoder.TopicsRoundTrip | subxt/src/events.rs:127-129 | a topic list is read back from its length-prefixed encoding |
| EventsDecoder.DecodeRawEvent | subxt/src/events.rs:140-156 | an event's data is the re-emitted bytes of its declared fields, exactly as consumed |
| EventsDecoder.DecodeRecord | subxt/src/events.rs:99-135 | a successful record decode consumes at least one byte |
| EventsDecoder.RecordAt | subxt/src/events.rs:99-135 | a record is decoded in this order: phase, pallet index, variant index, the catalog entry they name, the data, then the topics. The raw event carries the catalog's names, both indices and the data, and the topics are decoded but dropped |
| EventsDecoder.RecordUnknownEvent | subxt/src/events.rs:111 | a pallet and variant index pair missing from the catalog fails the record with `EventNotFound` carrying both indices |
| EventsDecoder.RecordFieldsError | subxt/src/events.rs:114-133 | an error in the event's fields fails the record with that error |
| EventsDecoder.RecordTopicsError | subxt/src/events.rs:127-128 | an error in the topics fails the record, even though the data was decoded |
| EventsDecoder.ReadMany | subxt/src/events.rs:98-136 | reading records in a loop yields exactly as many records as were asked for |
| EventsDecoder.DecodeRecords | subxt/src/events.rs:98-136 | the record loop yields exactly as many records as the count asks for |
| EventsDecoder.ReadManyFail | subxt/src/events.rs:98-136 | once a record fails, the whole loop fails with that record's error |
| EventsDecoder.RecordsFail | subxt/src/events.rs:98-136 | a failing record aborts the decode of the remaining records with its error |
| EventsDecoder.DecodeEvents | subxt/src/events.rs:89-138 | a decoded block has exactly as many records as its compact count says |
| EventsDecoder.EventsBadCount | subxt/src/events.rs:93 | a malformed count fails the whole block with the count's codec error |
| EventsDecoder.EventsFail | subxt/src/events.rs:89-138 | a failure in any record fails the whole block with that record's error; no partial list is returned |
| EventsDecoder.RecordRoundTrip | subxt/src/events.rs:99-135 | a well-typed record's encoding decodes to the raw event naming its catalog entry, with the field bytes as data |
| EventsDecoder.RecordsRoundTrip | subxt/src/events.rs:98-136 | consecutive encoded records decode, in order, to their raw events |
| EventsDecoder.EventsRoundTrip | subxt/src/events.rs:89-138 | a count-prefixed block of well-typed records decodes to the list of their raw events, in order, and leaves the trailing bytes |
| EventsDecoder.RecordPhaseError | subxt/src/events.rs:100 | a phase that does not decode fails the record with the phase's error |
| EventsDecoder.RecordShort | subxt/src/events.rs:101-102 | a record with fewer than two bytes after its phase fails with `UnexpectedEof` |
| EventsDecoder.RecordExtends | subxt/src/events.rs:99-135 | decoding a record from a longer input gives the same record, with the extra bytes left in the rest. An error other than running out of input stays the same |
| EventsDecoder.EventsExtends | subxt/src/events.rs:89-138 | decoding a block's event list from a longer input gives the same list, with the extra bytes left in the rest. An error other than running out of input stays the same |
| EventsDecoder.EventsTruncation | subxt/src/events.rs:89-138 | every proper prefix of a well-typed block's encoded event list fails with `UnexpectedEof`, never with a wrong list |
| EventsDecoder.EventEnumRecord | subxt/src/events.rs:99-125 | a record built from an encoded event enum value is well typed. Its raw event's variant index is the enum encoding's first byte, and its data is the rest of that encoding |
| EventsDecoder.AsEvent | subxt/src/events.rs:62-68 | a raw event whose pallet or variant name differs gives `Ok(None)`. When both names match, it succeeds exactly when the typed decoder accepts the data, and returns `Some` of what the decoder returned. A decoder error is passed through |
| EventsDecoder.AsEventRoundTrip | subxt/src/events.rs:62-68 | a raw event holding the encoding of a typed event, under that event's pallet and variant names, is read back as that event by a decoder that inverts the encoding |
| EventsExamples.SingleEvent | subxt/src/events.rs:407-429 | a block with one `Test::A(1u8)` event decodes to that single raw event |
| EventsExamples.MultipleEvents | subxt/src/events.rs:431-471 | a block with three events of different shapes decodes to the three raw events in order |
| EventsExamples.CompactEvent | subxt/src/events.rs:473-495 | a compact `u32::MAX` field is read as its five-byte encoding |
| EventsExamples.WrapperEvent | subxt/src/events.rs:497-522 | a compact field wrapped in a one-field struct is read as a compact integer |
| EventsExamples.ExplicitIndexEvent | subxt/src/events.rs:524-554 | a variant is found by its declared index (10), not by its position |
| DiscordPrimitives.Discriminant | pallet-discord/src/primitives.rs:64-106 | each permission flag's declared discriminant is below 41 |
| DiscordPrimitives.FromDiscriminant | pallet-discord/src/primitives.rs:64-106 | a discriminant names a flag exactly when it is below 41 |
| PermissionMask.OrBits | discord-bot/src/util.rs:8 | a bit of `a \| b` is set exactly when it is set in `a` or in `b` |
| PermissionMask.BitsDetermine | discord-bot/src/util.rs:6-9 | two masks with the same bits are equal |
| PermissionMask.OrBound | discord-bot/src/util.rs:8 | or-ing two values that fit in `n` bits gives a value that fits in `n` bits, so `\|=` never leaves the `u64` range |
| PermissionMask.BitOf | discord-bot/src/util.rs:8 | `2^d` for a flag discriminant fits in a `u64` (below `2^41`), so `u64::pow` cannot overflow, and it has exactly bit `d` set |
| PermissionMask.MaskBound | discord-bot/src/util.rs:6-9 | the accumulated mask stays below `2^41` |
| PermissionMask.MaskBits | discord-bot/src/util.rs:6-9 | bit `i` of the mask is set exactly when some listed flag has discriminant `i` |
| PermissionMask.MaskMembership | discord-bot/src/util.rs:7-9 | a flag's bit is set exactly when the flag is listed |
| PermissionMask.MaskIgnoresOrderAndRepeats | discord-bot/src/util.rs:7-9 | lists with the same flags give the same mask, whatever their order and repetitions |
| PermissionMask.CalculatePermissions | discord-bot/src/util.rs:5-9 | the loop, starting from zero, returns a `u64` whose set bits are exactly the listed flags' discriminants |
| DiscordPallet.EnsureBot | pallet-discord/src/lib.rs:126-129 | a call passes the bot check exactly when it is signed by a registered bot. An unsigned or root origin fails with `BadOrigin`; any other signer fails with `NoPermission` |
| DiscordPallet.RegisterBot | pallet-discord/src/lib.rs:111-118 | only root succeeds, and it adds the account to the bots and deposits `BotAdded`. Any other origin fails with `BadOrigin`. Nothing else changes |
| DiscordPallet.AddMember | pallet-discord/src/lib.rs:121-145 | a bot stores, under the account, a member with the given id, that account, no roles, and neither deafened nor muted; `MemberAdded` is deposited. Other members and all other maps are unchanged |
| DiscordPallet.BanMember | pallet-discord/src/lib.rs:148-171 | checks run in order: bot, then membership (`NotAMemberOfTheGuild`). On success the member's record leaves the guild members and is stored with the reason among the banned, and `MemberBanned` carries the member's id. Nothing else changes |
| DiscordPallet.CreateRole | pallet-discord/src/lib.rs:174-212 | a bot stores the role under its name with the given attributes, no id and not managed, replacing any role of that name, and deposits `RoleCreated`. Other roles are unchanged |
| DiscordPallet.AssignRoleAsWritten | pallet-discord/src/lib.rs:215-240 | checks run in order: bot, then role exists (`RoleDoesntExist`), then membership (`NotAMemberOfTheGuild`). On success `RoleAssigned` is deposited and the target is removed from the guild members |
| DiscordPallet.AssignRole | pallet-discord/src/lib.rs:215-240 | the same checks in the same order. On success the target stays a member with the role appended to its roles, and nothing else about the guild changes |
| DiscordPallet.ChannelArgumentError | pallet-discord/src/lib.rs:262-281 | a channel is rejected with `NotAVoiceChannel` exactly when a non-voice channel has a bitrate, user limit or voice region. It is rejected with `NotATextChannel` exactly when its voice settings fit but a non-text channel has a rate limit. It is accepted exactly when both fit |
| DiscordPallet.CreateChannel | pallet-discord/src/lib.rs:243-316 | a bot stores the channel under its name with the given fields and no id, and deposits `ChannelCreated`. It succeeds exactly when the argument checks pass, otherwise it fails with their error. The stored channel's settings suit its type, and other channels are unchanged |
| DiscordPallet.DeleteChannel | pallet-discord/src/lib.rs:319-335 | a bot removes exactly the named channel and deposits `ChannelDeleted`. A missing channel fails with `ChannelDoesntExist` |
| DiscordPallet.Dispatch | pallet-discord/src/lib.rs:108-336 | `register_bot` succeeds exactly for root. In both versions, every other call from a non-bot fails before anything else is looked at, with `BadOrigin` for an unsigned or root origin and `NoPermission` for another signer. A successful role assignment keeps its target exactly in the corrected version |
| DiscordPalletProperties.DispatchConsistent | pallet-discord/src/lib.rs:108-336 | every successful call keeps the storage invariant, in the pallet as written and as corrected: every record is keyed by its own account or name; roles and channels carry no id; channel settings suit the channel type; every role a member holds exists |
| DiscordPalletProperties.AssignRoleAsWrittenConsistent | pallet-discord/src/lib.rs:215-240 | the role assignment as written also keeps the storage invariant, since it only removes a member |
| DiscordPalletProperties.DispatchDepositsOneEvent | pallet-discord/src/lib.rs:108-336 | in both versions of the pallet, a successful call appends exactly one event and keeps the earlier ones |
| DiscordPalletProperties.BotsOnlyGrow | pallet-discord/src/lib.rs:108-336 | in both versions of the pallet, no call removes a bot, and only `register_bot` adds one |
| DiscordPalletProperties.AddMemberIdempotent | pallet-discord/src/lib.rs:121-145 | adding the same member twice leaves the same storage maps as adding it once |
| DiscordPalletProperties.AddThenBan | pallet-discord/src/lib.rs:148-171 | a member added and then banned is banned with the record it was added with. Both events are logged in order, and a second ban fails with `NotAMemberOfTheGuild` |
| DiscordPalletProperties.CreateThenDeleteChannel | pallet-discord/src/lib.rs:319-335 | deleting a channel just created restores the storage maps, and deleting it again fails with `ChannelDoesntExist` |
| DiscordPalletProperties.BitrateAndRateLimitConflict | pallet-discord/src/lib.rs:262-281 | no channel type accepts both a bitrate and a rate limit |
| DiscordPalletProperties.AssignRoleAsWrittenDropsMember | pallet-discord/src/lib.rs:227-235 | every successful role assignment as written removes the target from the guild, and differs from the intended result |
| DiscordPalletProperties.AssignRoleAsWrittenScenario | pallet-discord/src/lib.rs:215-240 | register a bot, add Alice, create a role, assign it: Alice is no longer a member |
| DiscordPalletProperties.AssignRoleScenario | pallet-discord/src/lib.rs:215-240 | the same run with the corrected call keeps Alice, holding exactly that role |

## Left out

- Bit sequences: `decode_type` aborts the process on a `BitSequence` field (events.rs:320-323). The model returns the typed error `Unimplemented` instead, so that one unsupported field fails the call with a typed error rather than aborting the process. This and the recursion bound below are the two places where the walker departs from the code.
- Stack depth: the Rust walker recurses without a bound. The model's `fuel` parameter stands for stack exhaustion and fails with `RecursionLimit`. All round-trip lemmas assume the values nest no deeper than the fuel.
- `parity-scale-codec`, `frame_system` (`Phase`, `Hash`) and `scale-info` are not part of this model. Their wire formats are written out as described under the modelling choices above.
- The `Char`, `U256` and `I256` primitives: the source rejects them with `UnsupportedPrimitive`, and so does the model. Nothing more is modelled about them.
- Building the metadata (`Metadata::event`, `resolve_type`): the model is given the registry and the event catalog as maps.
- Logging (`log::debug!`, `hex::encode`) writes nothing that affects results and is left out.
- Typed event decoders (`E::decode`) are foreign code. `EventsDecoder.AsEvent` takes the decoder as a function parameter.
- Weights, storage hashers, the runtime's event type conversion and `deposit_event` plumbing are left out. Events are appended to a log in the state.
- Transactional rollback is modelled by a failed call returning no state. Whether the runtime reverts partial writes is not modelled.
- `AccountId` and `DiscordId` are generic in the pallet and are unbounded naturals here. The `u8` and `u64` arguments are bounded subset types.
- The `Channel` struct in primitives.rs declares fields different from the ones `create_channel` constructs (lib.rs:285-298). The model follows the fields the call stores.
- `SerenityPermissions::from_bits_truncate` (util.rs:10) belongs to the `serenity` crate, which is not part of this model. `PermissionMask.CalculatePermissions` returns the raw `u64` before that conversion.
- The `ir.rs` code generator, the bot's event handler and commands, and the example programs are outside the modelled core.

## Findings

| source | as written | input that shows it | evidently intended | confidence | as-written member | corrected member |
|---|---|---|---|---|---|---|
| pallet-discord/src/lib.rs:227-235 | `assign_role` takes the member record out of the `GuildMembers` slot and pushes the role onto that copy. The copy is never put back, so `try_mutate` stores the emptied slot and the member is deleted from the guild | root registers bot 1; the bot adds member 2 and creates role `mod`; the bot assigns `mod` to member 2. Member 2 is then no longer in `GuildMembers` | the member stays in the guild with `mod` appended to its roles | high; not executed | DiscordPallet.AssignRoleAsWritten, DiscordPalletProperties.AssignRoleAsWrittenScenario, DiscordPalletProperties.AssignRoleAsWrittenDropsMember | DiscordPallet.AssignRole, DiscordPalletProperties.AssignRoleScenario |
