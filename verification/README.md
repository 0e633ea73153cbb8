# A verified model of the Zigbee stack

This project models five parts of the stack and proves what they promise, or exactly when they do.

* **Distributed addressing and tree routing.** A profile (Cm, Rm, Lm) is a tree; a device is a path of
  child numbers. Block sizes have an independent recurrence (`AddressBlocks.BlockSize`); the closed form
  of the source is proved equal to it. From there: blocks partition, addresses are a bijection, tree
  routing climbs and descends without revisiting a router, and the recursive search finds routing
  addresses.
* **The ZCL value codec, the attribute store and persistence.** Specification functions for writer and
  reader, methods over a buffer that compute them, a round trip whose well-formedness condition is
  proved necessary and sufficient, write commands, discovery paging, and loading what was stored.
* **Security.** AES-MMO and its keyed hash around an abstract block cipher; the auxiliary header and its
  nonce; securing and opening frames in place around an abstract cipher; the network and the
  application-support layer on top; and runs in which no key repeats a nonce. Of the cipher only this is
  assumed: opening what was sealed under the same key, nonce and additional data gives the plaintext
  back, and the counter-mode stream undoes itself.
* **Bit structures.** One reader and one writer over an arbitrary list of fields. The frame controls and
  the security control are shown to be what the writer produces.
* **The neighbor table and link status.** Steps of joining and leaving devices as a state machine, and
  the overlapping frames made from the sorted table.

Code that updates state is modelled by classes, arrays and loops (`ZclBuffer`, `AttributeStore.Cluster`,
`AesMmo.Aes128Mmo`, `SecuredFrames`, `NwkSecurity.KeyStore`, `ApsSecurity.LinkKeys`,
`NeighborTable.NeighborStore`, `BitStruct.Read` and `BitStruct.Write`), each proved against a function
whose own properties are proved as lemmas.

What both ends of a format share is also stated without the shared functions: `ZclWire` and `Utf8` give the
octets of every value and the answer to every tag, `SecuredWire` those of headers, nonces and secured
frames, and the contracts of the key, attribute and neighbor operations say in plain terms which key,
status or entries they end with.

## Where the code differs from what it is for

* `c_skip` subtracts in `u32`. With two or more routers per parent it panics where overflow is checked;
  where it wraps it yields 0, except at the lowest level. The lemmas about the tree use the integer
  formula; the exact conditions for the machine formula are `CheckedCSkipIff` and `WrappingCSkipIff`, for a
  next hop `CheckedNextHopIff`, for a whole route `CheckedRoutingDeliversIff` and for routing addresses
  `RoutingAddressFor`. The coordinator, whose depth is 0, underflows at `depth - 1`. The one profile that
  assigns addresses this way, with 20 children, 6 routers and depth 5, fails at every depth
  (`ZigbeeProfileOverflows`).
* The default radius is doubled in `u8` and overflows for trees deeper than 127 (`DefaultRadiusIff`).
* The routing-address search asks for the block size below depth Lm when it passes a router at that
  depth; every router there but the first child of its parent has no routing address.
* A long string is read back as a string; an IEEE address reports four of its eight bytes as read;
  integers of odd width are not sign-extended; lengths over their prefix are truncated; a date with an
  absent day is refused in the months that have fewer than 31 days. `LeafRoundTripsIff` and
  `RoundTripIffWellFormed` give the exact condition.
* The interval pair (0xffff, 0) asks for the defaults but is stored itself. The reportable change is not
  stored: loading resets it.
* AES-MMO padding drops the 0x80 byte for messages of length 14 modulo 16 and panics for length 15
  modulo 16. The threshold between the two padding forms is compared with bytes, not bits, so lengths
  from 8192 to 65535 get the short form with a truncated length (`PadIsStandardIff`).
* A key shorter than a block is hashed before use, where RFC 2104 extends it with zeros.
* Bit structures are written by disjunction. Headers land as themselves exactly in buffers that hold no
  stray bits under them (`JoinedIffClean`); the callers in the source pass zeroed buffers. The stack
  profile of a beacon is given five bits instead of four, so the protocol version straddles two bytes and
  beacons with a version of 8 or more do not round trip (`NetworkParametersRoundTripIff`). A buffer
  without room for the octets of a bit structure makes its writer panic (`SecuredFrames.NoRoom`); no
  caller in the source passes one.
* An application data frame cannot be secured without the extended nonce, because the nonce needs the
  source address.
* The address-conflict check of a rejoin is inverted for addresses found in the neighbor table: it lets a
  device take the address of another (`RejoinAddressIsFreeIff`) and renames a device that keeps its own
  (`RejoinRenamesIff`).
* The comment on link status promises that all neighbors fit the frames; the frame count is one short
  unless the table has at most 16 entries or one more than a multiple of 15. Every frame claims to be the
  first, only a table of one entry claims a last frame, and a receiver that finds no entry for itself
  records the best cost where its comment says 0. The second `bit_struct` attribute of
  `LinkStatus::outgoing_cost` (common/zb-rs/src/nwk/commands/link_status.rs:76-77) is ignored, so the
  skipped bit between the two costs is lost (`LinkStatusIsAsDeclaredIff`).
* A network key that is installed again under another sequence number repeats its nonces
  (`RenamedKeyRepeatsNonce`).

## Model

| member | source | states |
|---|---|---|
| AddressBlocks.CSkipIsBlockSize | common/zb-rs/src/nwk/service/routing.rs:265-272 | the division in Cskip is exact and both branches agree with the recurrence Cskip(d) = 1 + Rm * Cskip(d + 1) + (Cm - Rm), which ends with one address |
| AddressBlocks.CSkipIsPowerSum | common/zb-rs/src/nwk/service/routing.rs:265-272 | the form that stays non-negative: Cskip(d) = 1 + Cm * (1 + Rm + ... + Rm^(Lm - d - 2)) |
| AddressBlocks.BlockSizesShrink | common/zb-rs/src/nwk/service/routing.rs:265-272 | every block holds at least one address and is no smaller than the blocks below it |
| AddressBlocks.CheckedCSkipIff | common/zb-rs/src/nwk/service/routing.rs:265-272 | the `u32` evaluation succeeds, with the right value, exactly for at most one router per parent and a depth below Lm |
| AddressBlocks.WrappingCSkipIff | common/zb-rs/src/nwk/service/routing.rs:265-272 | the wrapping evaluation is right exactly for at most one router or at depth Lm - 1; otherwise it is 0 |
| AddressBlocks.ZigbeeProfileOverflows | common/zb-rs/src/stack_profile/mod.rs:51-68 | the profile with distributed addressing fits 16 bits with 31101 addresses, and its `u32` block sizes fail at every depth |
| AddressBlocks.DefaultRadiusIff | common/zb-rs/src/nwk/frame/header.rs:166 | doubling Lm in `u8` overflows exactly from 128 on, which only profiles with at most one router per parent reach |
| AddressTree.BlocksNestedOrDisjoint | common/zb-rs/src/nwk/service/routing.rs:274-284 | the ranges of two devices are nested, exactly along the tree, or disjoint |
| AddressTree.BlockIsPartitioned | common/zb-rs/src/nwk/service/routing.rs:341-357 | a router's block is its own address and its children's extents, each address in exactly one of them |
| AddressTree.AddressesAreDistinct | common/zb-rs/src/nwk/service/routing.rs:341-357 | different devices have different addresses |
| AddressTree.AddressesAreABijection | common/zb-rs/src/nwk/service/routing.rs:341-357 | the assigned addresses are exactly those below the size of the coordinator's block, one device each |
| TreeRouting.DescendantIffBelow | common/zb-rs/src/nwk/service/routing.rs:274-284 | the descendant test holds exactly for the devices below the router in the tree |
| TreeRouting.NextHopRefinesTree | common/zb-rs/src/nwk/service/routing.rs:287-308 | the next hop of a router other than the coordinator is one step along the tree path: the child holding the destination, or the parent |
| TreeRouting.CheckedIsDescendantIff | common/zb-rs/src/nwk/service/routing.rs:274-284 | in checked arithmetic the test is computed, and right, exactly away from the coordinator with at most one router per parent |
| TreeRouting.CheckedNextHopIff | common/zb-rs/src/nwk/service/routing.rs:287-308 | in checked arithmetic the next hop is computed, and the tree step, exactly away from the coordinator with at most one router per parent |
| TreeRouting.TrailFollowsTreePath | common/zb-rs/src/nwk/service/routing.rs:287-308 | iterated next hops visit the devices of the tree path in order |
| TreeRouting.TreeRoutingDelivers | common/zb-rs/src/nwk/frame/header.rs:166 | from any router to any device: delivery within the default radius of 2 * Lm hops, no device visited twice |
| TreeRouting.CheckedRoutingDeliversIff | common/zb-rs/src/nwk/service/routing.rs:287-308 | in checked arithmetic a route is completed exactly if sender and destination are the same, or there is at most one router per parent and the coordinator forwards nothing |
| TreeRouting.DefaultRadiusSuffices | common/zb-rs/src/nwk/frame/header.rs:166 | where the default radius is computed at all, which is for Lm below 128, it covers every route |
| TreeRouting.SearchRoutingAddress | common/zb-rs/src/nwk/service/routing.rs:324-365 | the recursive search ends; over the integers, and in `u32` with at most one router per parent, it gives the address itself for a router, the parent for an end device, nothing outside the block, and overflows exactly where it asks for blocks below depth Lm; in `u32` with more routers it overflows on all but the router itself |
| TreeRouting.RoutingAddressFor | common/zb-rs/src/nwk/service/routing.rs:315-322 | in `u32` a routing address is found exactly for address 0, or for assigned addresses with at most one router per parent; over the integers exactly for assigned addresses other than those of routers at depth Lm that are not the first child |
| ZclCodec.LeafRoundTripsIff | common/zb-rs/src/zcl/types.rs:196-298 | a value without items is read back, whatever follows it, exactly if it is well formed; which values are is in plain numbers under `ZclWire` |
| ZclCodec.DecodeOfEncode | common/zb-rs/src/zcl/types.rs:172-194 | every well-formed value within the depth limit is read back with its length, whatever follows it |
| ZclCodec.RoundTripIffWellFormed | common/zb-rs/src/zcl/types.rs:301-403 | a value and all values nested in it round trip exactly if the value is well formed; which values are is in plain numbers under `ZclWire` |
| ZclCodec.EncodingIsPrefixFree | common/zb-rs/src/zcl/types.rs:301-403 | streams that agree start with the same value and continue alike |
| ZclCodec.Decode | common/zb-rs/src/zcl/types.rs:196-298 | an accepted value consumes at least its tag and at most the input |
| ZclCodec.AcceptedIsRepresentable | common/zb-rs/src/zcl/types.rs:197-201 | every accepted value fits its Rust type and nests at most 15 - depth levels |
| ZclCodec.LeafReencodesIffCanonical | common/zb-rs/src/zcl/types.rs:196-298 | an accepted leaf is written as the bytes it was read from exactly if these are canonical |
| ZclCodec.CanonicalReencodes | common/zb-rs/src/zcl/types.rs:172-194 | whatever a canonical input decodes to is well formed and written as the consumed bytes |
| ZclCodec.ReencodesIffCanonical | common/zb-rs/src/zcl/types.rs:196-298 | an accepted value and all values nested in it are written as the bytes they were read from exactly if the input is canonical |
| ZclBuffer.TryWrite | common/zb-rs/src/zcl/types.rs:301-403 | writing succeeds exactly for at most fifteen levels and within the buffer, puts the encoding at the offset and changes nothing else; the octets of the encoding are those of the `ZclWire` rows |
| ZclBuffer.WriteItems | common/zb-rs/src/zcl/types.rs:368-391 | the same for the count and the items of a composite |
| ZclBuffer.TryRead | common/zb-rs/src/zcl/types.rs:196-298 | the reader computes the specification on every input; what that is for each tag are the `ZclWire` rows |
| ZclBuffer.ReadItems | common/zb-rs/src/zcl/types.rs:172-194 | the item loop computes the specification of composites |
| ZclWire.UnsignedWireForm | common/zb-rs/src/zcl/types.rs:314-338 | tags 0x08 to 0x0f, 0x18 to 0x1f and 0x20 to 0x27 carry one to eight bytes, lowest first; what their Rust types hold, and which values are well formed |
| ZclWire.OtherNumbersWireForm | common/zb-rs/src/zcl/types.rs:347-397 | the same for enumerations, floats, the time stamp and the identifiers; no further tag carries a number |
| ZclWire.SignedWireForm | common/zb-rs/src/zcl/types.rs:339-346 | tags 0x28 to 0x2f carry two's complement in one to eight bytes; in fewer bytes than the Rust type exactly the numbers that need no sign are well formed |
| ZclWire.UnsignedAreRead | common/zb-rs/src/zcl/types.rs:207-231 | the reader takes the same bytes for the number, and is incomplete without them |
| ZclWire.OtherNumbersAreRead | common/zb-rs/src/zcl/types.rs:240-283 | the same for enumerations, floats, the time stamp and the identifiers |
| ZclWire.SignedAreRead | common/zb-rs/src/zcl/types.rs:232-239 | the same for signed integers, without extending the sign of odd widths |
| ZclWire.LeafWireForm | common/zb-rs/src/zcl/types.rs:312-400 | the octets of null, boolean, strings with their length prefix, time, date, address and key |
| ZclWire.ClockWellFormedIff | common/zb-rs/src/zcl/types.rs:426-520 | the times and dates that survive, field by field: ranges, absent fields, the length of the month and leap years |
| ZclWire.ShortStringIsRead | common/zb-rs/src/zcl/types.rs:245-258 | what the reader answers to a string with a length of one octet, on every input |
| ZclWire.LongStringIsRead | common/zb-rs/src/zcl/types.rs:259-273 | the same for a length of two octets; a long string becomes a string |
| ZclWire.ClockIsRead | common/zb-rs/src/zcl/types.rs:426-520 | what the reader answers to times and dates, on every input |
| ZclWire.FixedIsRead | common/zb-rs/src/zcl/types.rs:197-298 | what the reader answers to null, boolean, address, key, every tag without a reader, no tag and the depth limit |
| ZclWire.CompositeWireForm | common/zb-rs/src/zcl/types.rs:368-391 | tag, number of items and the encodings of the items, each where the one before ends |
| ZclWire.CompositeWellFormedIff | common/zb-rs/src/zcl/types.rs:172-194 | a composite is well formed exactly if its count is the number of its items and they are well formed |
| ZclWire.CompositeIsRead | common/zb-rs/src/zcl/types.rs:172-194 | the items are read one behind the other, one level deeper, up to the count or the first failure, which is the answer |
| ZclWire.NestingIsDepth | common/zb-rs/src/zcl/types.rs:172-194 | a value with items has one level more than its deepest item |
| Utf8.ValidUtf8Iff | common/zb-rs/src/zcl/types.rs:250-258 | accepted text is exactly a sequence of encoded Unicode scalar values |
| AttributeStore.Cluster.constructor | common/zb-macros/src/zcl.rs:722-727 | a new cluster holds its declared attributes |
| AttributeStore.Cluster.GetAttributes | common/zb-macros/src/zcl.rs:752-762 | the table has exactly the declared identifiers; one declared twice names the later attribute |
| AttributeStore.Cluster.SetFromZclData | common/zb-macros/src/zcl.rs:334-376 | stores the converted value exactly if variant, conversion and range allow it, and says which of the first two failed |
| AttributeStore.Cluster.WriteAttributes | common/zb-rs/src/zcl/cluster/types.rs:217-249 | every record is answered: unsupported if nothing has its identifier, else by the last declared attribute that has it: read-only, wrong type, invalid value (no conversion or out of range) or success; only writable attributes change, each to the converted value of the last record that writes it, within its range |
| AttributeStore.LastWriteWins | common/zb-rs/src/zcl/cluster/types.rs:217-249 | the last successful record for an attribute decides its value, and intervals stay |
| AttributeStore.UnwrittenStays | common/zb-rs/src/zcl/cluster/types.rs:217-249 | an attribute without a successful record keeps its value |
| AttributeStore.RepeatingChangesNothing | common/zb-rs/src/zcl/cluster/types.rs:217-249 | sending a write command twice has the effect of sending it once |
| AttributeStore.WritingKeepsSound | common/zb-rs/src/zcl/cluster/types.rs:217-249 | every attribute keeps holding a value of its type |
| AttributeStore.Cluster.WriteAttributesUndivided | common/zb-rs/src/zcl/cluster/types.rs:251-301 | the same statuses; if all are successes the effect of the plain write, else no change |
| AttributeStore.Cluster.CheckRecords | common/zb-rs/src/zcl/cluster/types.rs:255-290 | the first loop finds the same statuses, each spelled out, and whether all are successes |
| AttributeStore.VerdictIsDeserved | common/zb-rs/src/zcl/cluster/types.rs:226-243 | the exact condition for each of the five statuses of a record |
| AttributeStore.WrittenByHasEffect | common/zb-rs/src/zcl/cluster/types.rs:217-249 | what a whole command does to every attribute, and that it never changes a read-only one or leaves a range |
| AttributeStore.Cluster.ApplyRecords | common/zb-rs/src/zcl/cluster/types.rs:292-298 | after validation neither unwrap of the second loop fails, even with repeated identifiers |
| AttributeStore.Cluster.DiscoverAttributes | common/zb-rs/src/zcl/cluster/types.rs:397-418 | at most the maximum of identifiers, ascending from the start on, each with its type; an attribute is left out only if the page is full of smaller ones |
| AttributeStore.KeysAreSorted | common/zb-rs/src/zcl/cluster/types.rs:404-406 | the sorted keys are strictly ascending and exactly the identifiers of the cluster |
| AttributeStore.FromAfterPage | common/zb-rs/src/zcl/cluster/types.rs:408 | what follows the last identifier of a page is exactly what the page left over |
| AttributeStore.PagingEnumerates | common/zb-rs/src/zcl/cluster/types.rs:397-418 | discovering from one past the last identifier, with any maximum of at least one, enumerates every attribute once, in order, and ends |
| AttributePersistence.SetReportingConfig | common/zb-rs/src/zcl/cluster/types.rs:110-126 | an ordered pair or (0xffff, 0) is set with the reportable change and everything else kept; any other pair is refused and changes nothing |
| AttributePersistence.ConfiguredIsRestorable | common/zb-rs/src/zcl/cluster/types.rs:110-126 | after any configuration requests the pair is ordered, (0xffff, 0) or the default |
| AttributePersistence.IntervalsRestoredIff | common/zb-macros/src/zcl.rs:288-299 | a stored pair is restored exactly if it is ordered, (0xffff, 0) or the default |
| AttributePersistence.StoredIsRestored | common/zb-macros/src/zcl.rs:378-418 | a well-formed value with a restorable pair is restored and its bytes are consumed |
| AttributePersistence.RestoredIffRecoverable | common/zb-macros/src/zcl.rs:378-418 | with a lossless conversion these conditions are also necessary |
| AttributePersistence.ReloadIsSound | common/zb-macros/src/zcl.rs:378-398 | whatever loading accepts is a value of the attribute's type |
| AttributePersistence.ReadAttribute | common/zb-macros/src/zcl.rs:378-398 | an unreadable value, missing interval bytes, another variant and a failed conversion fail in this order; else the converted value, and the four bytes behind it as the pair unless no request could set it |
| AttributePersistence.StoredWireForm | common/zb-macros/src/zcl.rs:401-418 | the value and, behind it, minimum and maximum with the low byte first |
| AttributePersistence.ClusterIsLoadedInOrder | common/zb-macros/src/zcl.rs:776-782 | attributes are loaded one behind the other up to the first failure, which is the answer; that one and the later ones keep what they held |
| AttributePersistence.WriteAttribute | common/zb-macros/src/zcl.rs:401-418 | storing one attribute succeeds exactly if its bytes fit, and puts them at the offset |
| AttributePersistence.ReadWith | common/zb-macros/src/zcl.rs:776-782 | loads the fields in order, in place, keeping those read before a failure |
| AttributePersistence.WriteWith | common/zb-macros/src/zcl.rs:784-790 | stores the fields in order; succeeds exactly if they fit |
| AttributePersistence.ClusterIsRestored | common/zb-macros/src/zcl.rs:776-790 | a recoverable cluster is restored field by field, whatever it held |
| AttributePersistence.Load | common/zb-rs/src/apl/application/types.rs:182-192 | loads all clusters with one offset, in place |
| AttributePersistence.StoreFrom | common/zb-rs/src/apl/application/types.rs:194-204 | stores all clusters in order; succeeds exactly if they fit |
| AttributePersistence.ApplicationIsRestored | common/zb-rs/src/apl/application/types.rs:182-204 | the stored bytes of a recoverable application, with anything behind them, restore every value and pair of all its clusters |
| BitStruct.FieldsAreApart | common/zb-macros/src/bit_struct.rs:66-113 | the fields of a layout never overlap, whether they fit or not |
| BitStruct.PositionsFollow | common/zb-macros/src/bit_struct.rs:66-88 | each field starts its skip behind the end of the one before, or behind the end of its byte if that one does not fit |
| BitStruct.FieldIsRead | common/zb-macros/src/bit_struct.rs:66-88 | a field is the byte at its position, shifted down and cut to its length |
| BitStruct.ReadAfterWrite | common/zb-macros/src/bit_struct.rs:90-113 | a field reads as what it held joined with what is kept of its value, and is untouched by all others |
| BitStruct.RoundTripIffAllFit | common/zb-macros/src/bit_struct.rs:66-113 | all values are read back from zeroed bytes exactly if every field fits in its byte |
| BitStruct.RoundTripsIffKept | common/zb-macros/src/bit_struct.rs:66-113 | given values are read back from zeroed bytes exactly if each is kept within its length and its byte |
| BitStruct.DirtyFieldReadsBackIff | common/zb-macros/src/bit_struct.rs:106 | in bytes that are not zeroed a value is read back exactly if it has every bit the field held |
| BitStruct.WriteAfterRead | common/zb-macros/src/bit_struct.rs:66-113 | writing what was read reproduces exactly the bits that are not skipped |
| BitStruct.Read | common/zb-macros/src/bit_struct.rs:66-88 | the generated reading loop computes every field at its place |
| BitStruct.Write | common/zb-macros/src/bit_struct.rs:90-113 | the generated writing loop computes the bytes with all fields joined in |
| BitStruct.NetworkParametersDoNotFit | common/zb-rs/src/nwk/nlme.rs:795-806 | of the beacon parameters exactly the protocol version does not fit |
| BitStruct.NetworkParametersRoundTripIff | common/zb-rs/src/nwk/nlme.rs:795-806 | beacon parameters round trip exactly for protocol versions below 8 |
| BitStruct.ProtocolVersion8IsLost | common/zb-rs/src/nwk/nlme.rs:795-806 | a beacon of stack profile 2 and protocol version 8 is read back with version 0 |
| BitStruct.LinkStatusIsAsDeclaredIff | common/zb-rs/src/nwk/commands/link_status.rs:71-79 | the octet of a link status is the declared one exactly for an outgoing cost of zero, and an unknown cost is written as zero |
| BitStruct.NwkFrameControlFits | common/zb-rs/src/nwk/frame/header.rs:54-69 | every field of the network frame control fits |
| BitStruct.ApsFrameControlFits | common/zb-rs/src/apl/aps/frame.rs:18-29 | every field of the application-support frame control fits |
| BitStruct.SecurityControlFits | common/zb-rs/src/common/security/frame.rs:45-53 | every field of the security control fits |
| AesMmo.Aes128Mmo.constructor | common/zb-rs/src/common/security/primitives.rs:36-38 | the state starts as the zero block |
| AesMmo.Aes128Mmo.Update | common/zb-rs/src/common/security/primitives.rs:51-96 | a message too long or of length 15 modulo 16 fails and leaves the state; else a chain of states runs from the old to the new one over the message and its pad, each the encrypted block joined with the block by exclusive or |
| AesMmo.Aes128Mmo.Absorb | common/zb-rs/src/common/security/primitives.rs:70-93 | the iterator loop ends, and a chain of states, one for each block in order, runs from the old state to the new one |
| AesMmo.PaddedIsWhole | common/zb-rs/src/common/security/primitives.rs:57-72 | the padded message is a whole number of blocks, starts with the message and ends with the bit length |
| AesMmo.PadIsPlain | common/zb-rs/src/common/security/primitives.rs:57-68 | the pad octet by octet: 0x80 and zeros as far as there is room, then the bit length, high byte first |
| AesMmo.HashedIsHash | common/zb-rs/src/common/security/primitives.rs:51-96 | the specified hash is the end of the chain of states over the padded message |
| AesMmo.XorIsDigitwise | common/zb-rs/src/common/security/primitives.rs:89-92 | the exclusive or of the step works on the binary digits one by one |
| AesMmo.PadIsStandardIff | common/zb-rs/src/common/security/primitives.rs:57-68 | of all accepted messages exactly those shorter than 8192 bytes and of length at most 13 modulo 16 are padded as annex B.6 does |
| AesMmo.LongPadIsNotStandard | common/zb-rs/src/common/security/primitives.rs:57-64 | no message of 8192 bytes or more gets the long form of annex B.6 |
| AesMmo.PaddingIsInjective | common/zb-rs/src/common/security/primitives.rs:57-64 | two messages that can be padded never pad to the same bytes |
| AesMmo.HashedIff | common/zb-rs/src/common/security/primitives.rs:57-68 | a message can be hashed exactly if it is below the threshold and not of length 15 modulo 16 |
| AesMmo.Hmac | common/zb-rs/src/common/security/primitives.rs:141-148 | keys of at least a block give the keyed hash of RFC 2104, shorter keys are hashed first; both also as chains with the pads 0x36 and 0x5c written out |
| AesMmo.HmacBlock | common/zb-rs/src/common/security/primitives.rs:150-165 | the hash of the key joined with 0x36 and the message, hashed again behind the key joined with 0x5c |
| AesMmo.Rfc2104IsKeyedHash | common/zb-rs/src/common/security/primitives.rs:150-165 | the specified keyed hash with its pads and its two hashes written out |
| AesMmo.HmacSucceedsIff | common/zb-rs/src/common/security/primitives.rs:150-165 | when the keyed hash exists; in particular always for one octet |
| AuxHeader.ControlRoundTrip | common/zb-rs/src/common/security/frame.rs:45-53 | the control octet is read back, clearing its low bits clears the level, and joining restores it |
| AuxHeader.ControlIsBitStruct | common/zb-rs/src/common/security/frame.rs:45-53 | the octet is what the bit-structure writer produces |
| AuxHeader.AuxRoundTrip | common/zb-rs/src/common/security/frame.rs:7-15 | an auxiliary header is read back from its bytes, whatever follows them |
| AuxHeader.CreateNonce | common/zb-rs/src/common/security/frame.rs:18-42 | the loops lay out address, counter and control; none without an address |
| AuxHeader.NonceIsInjective | common/zb-rs/src/common/security/frame.rs:18-42 | equal nonces come from equal addresses, counters and controls |
| SecuredWire.LevelWireForm | common/zb-rs/src/common/security/frame.rs:55-81 | the eight levels in order, with the tag lengths 0, 4, 8 and 16 |
| SecuredWire.AuxWireForm | common/zb-rs/src/common/security/frame.rs:7-15 | the auxiliary header octet by octet: level, key identifier and nonce flag, counter, address, key sequence number |
| SecuredWire.NonceWireForm | common/zb-rs/src/common/security/frame.rs:18-42 | the nonce octet by octet |
| SecuredWire.AuxIsReadIff | common/zb-rs/src/common/security/frame.rs:7-15 | an auxiliary header is read exactly if all octets it announces are there, and is written as them |
| SecuredWire.SealedOverIsSealed | common/zb-rs/src/common/security/primitives.rs:276-312 | a secured frame octet by octet over any buffer: what is joined, what is cleared, what is authenticated and with which tag |
| SecuredWire.OpenedWireForm | common/zb-rs/src/nwk/security.rs:160-173 | opening restores the level, authenticates all octets before the payload with it, and uses the tag of the level |
| SecuredWire.NwkControlWireForm | common/zb-rs/src/nwk/frame/header.rs:54-69 | every field of the network frame control at its bits |
| SecuredWire.NwkHeaderWireForm | common/zb-rs/src/nwk/frame/header.rs:71-87 | every field of the network header at its offset |
| SecuredWire.NwkHeaderIsReadIff | common/zb-rs/src/nwk/frame/header.rs:71-87 | which octets are read as a network header, and that what is read is written as them |
| SecuredWire.ApsControlWireForm | common/zb-rs/src/apl/aps/frame.rs:18-29 | every field of the application-support frame control at its bits |
| SecuredWire.ApsHeaderWireForm | common/zb-rs/src/apl/aps/frame.rs:75-99 | which fields each kind of frame has and the offset of each |
| SecuredWire.ApsHeaderIsReadIff | common/zb-rs/src/apl/aps/frame.rs:75-99 | which octets are read as an application-support header, and that what is read is written as them |
| SecuredFrames.DecryptEncrypt | common/zb-rs/src/common/security/primitives.rs:217-273 | at every level decryption undoes encryption under the same key, nonce and additional data |
| SecuredFrames.JoinedIffClean | common/zb-macros/src/bit_struct.rs:106 | a bit structure lands as itself exactly in bytes without stray bits |
| SecuredFrames.WriteAndEncrypt | common/zb-rs/src/common/security/primitives.rs:276-312 | succeeds exactly with an address and enough room, and leaves header, header without level, ciphertext and tag; otherwise which error it gives, or the panic of a bit structure without room |
| SecuredFrames.OpenedSealed | common/zb-rs/src/nwk/security.rs:160-173 | restoring the level reproduces additional data and nonce, so the payload comes back |
| SecuredFrames.OpenInPlace | common/zb-rs/src/nwk/security.rs:160-171 | opening in place computes its specification |
| NwkFrames.NewHeader | common/zb-rs/src/nwk/frame/header.rs:172-214 | every field of a new header: version 2, the given addresses, radius and sequence number, and a presence flag for each optional field |
| NwkFrames.ControlRoundTrip | common/zb-rs/src/nwk/frame/header.rs:54-69 | a frame control is read back from its octets |
| NwkFrames.ControlIsBitStruct | common/zb-rs/src/nwk/frame/header.rs:54-69 | the octets are what the bit-structure writer produces |
| NwkFrames.HeaderRoundTrip | common/zb-rs/src/nwk/frame/header.rs:71-87 | a header is read back from its bytes, whatever follows them |
| NwkSecurity.KeyStore.MakeEncryptedFrame | common/zb-rs/src/nwk/security.rs:28-96 | which error, panic or success each case gives; on success the frame sealed under the active key, with its sequence number and counter in the auxiliary header, the rest of the buffer unchanged, and the counter up by one |
| NwkSecurity.SealedInCleanBuffer | common/zb-rs/src/nwk/service/transmission.rs:286-287 | in a buffer without stray bits the frame is the one its receiver expects |
| NwkSecurity.DecryptFrame | common/zb-rs/src/nwk/security.rs:117-176 | decryption computes its specification; its answers are spelled out: which headers, keys, counters and lengths are refused, and under which key a frame is opened |
| NwkSecurity.RefusedIff | common/zb-rs/src/nwk/security.rs:152-161 | a frame is refused exactly if its counter is below the first one stored for its sender |
| NwkSecurity.DecryptsIff | common/zb-rs/src/nwk/security.rs:117-176 | a receiver with the same key gets the frame back exactly if the header announces security, the key is known and no stored counter refuses it |
| NwkSecurity.SentFrameIsReceivedIff | common/zb-rs/src/nwk/service/transmission.rs:286-287 | end to end: what encryption leaves in a zeroed buffer decrypts to the frame, under the same condition |
| ApsFrames.ControlRoundTrip | common/zb-rs/src/apl/aps/frame.rs:18-29 | a frame control is read back from its octet |
| ApsFrames.ControlIsBitStruct | common/zb-rs/src/apl/aps/frame.rs:18-29 | the octet is what the bit-structure writer produces |
| ApsFrames.HeaderRoundTrip | common/zb-rs/src/apl/aps/frame.rs:75-99 | a header with exactly the fields its control announces is read back |
| ApsSecurity.SelectedKey | common/zb-rs/src/apl/aps/security/sap/service.rs:548-565 | every key identifier but that of network keys selects a key |
| ApsSecurity.SelectedKeyIs | common/zb-rs/src/apl/aps/security/sap/service.rs:548-565 | the key of each identifier: the link key, its keyed hash of 0x00 or of 0x02, or none |
| ApsSecurity.LinkKeys.EncryptApsFrame | common/zb-rs/src/apl/aps/security/sap/service.rs:602-708 | which error, panic or success each case gives; a transported network key is sealed under the keyed hash of 0x00 as key transport, any other transported key under that of 0x02 as key load, everything else under the link key; the counter goes up by one exactly on success |
| ApsSecurity.SealedInCleanBuffer | common/zb-rs/src/apl/aps/apsde.rs:456 | in a buffer without stray bits the frame is the one its receiver expects |
| ApsSecurity.DecryptApsFrame | common/zb-rs/src/apl/aps/security/sap/service.rs:489-600 | decryption computes its specification; its answers are spelled out, and a frame is opened under the link key or its keyed hash of 0x00 or 0x02 by the identifier in its auxiliary header, from the sender's pair, or before authorization the first global one |
| ApsSecurity.DecryptsIff | common/zb-rs/src/apl/aps/security/sap/service.rs:489-708 | a receiver whose pair has the sender's link key derives the same key and gets header and body back exactly if the pair exists and is not of a unique link key with a counter above the frame's |
| ApsSecurity.SentFrameIsReceivedIff | common/zb-rs/src/apl/aps/apsde.rs:456 | end to end: what encryption leaves in a zeroed buffer decrypts to header and body, under the same condition |
| NonceRuns.EncryptStep | common/zb-rs/src/nwk/security.rs:42-89 | the encryption of the stack takes the step of the run and seals under the header and key it logs |
| NonceRuns.OtherEvents | common/zb-rs/src/apl/zdo/mod.rs:569-579 | switching names another key; installing appends a key with a counter of zero while there are fewer than four |
| NonceRuns.NwkStepKeepsInvariant | common/zb-rs/src/apl/zdo/mod.rs:569-579 | encryptions, key switches and key installations keep counters ahead of every frame sent |
| NonceRuns.NwkNoncesNeverRepeat | common/zb-rs/src/nwk/security.rs:42-89 | in every run no descriptor repeats a nonce; if each key has one sequence number, no key does, even if it is installed again |
| NonceRuns.RenamedKeyRepeatsNonce | common/zb-rs/src/apl/zdo/mod.rs:569-579 | a run that installs a key under a second sequence number and seals two frames under one nonce |
| NonceRuns.ApsStepKeepsFresh | common/zb-rs/src/apl/zdo/mod.rs:607-617 | encryptions and key updates keep the counters of link keys ahead of every frame sent |
| NonceRuns.ApsEncryptStep | common/zb-rs/src/apl/aps/security/sap/service.rs:602-708 | the encryption of the application-support layer takes the step of the run and seals under the pair and counter it logs |
| NonceRuns.ApsNoncesNeverRepeat | common/zb-rs/src/apl/aps/security/sap/service.rs:648-705 | in every run no key pair repeats a nonce |
| NeighborTable.AssignChildAddress | common/zb-rs/src/nwk/service/routing.rs:219-242 | the address is the first draw that is free; it is neither zero nor broadcast |
| NeighborTable.StepKeepsExtended | common/zb-rs/src/nwk/service/reception.rs:187-229 | every step keeps one entry per device and the capacity |
| NeighborTable.RunKeepsExtended | common/zb-rs/src/nwk/nib.rs:181-240 | so does every run |
| NeighborTable.JoinsAddOnlyTheDevice | common/zb-rs/src/nwk/nlme.rs:591-613 | associations and direct joins add only the joining device under its assigned address |
| NeighborTable.StepKeepsShort | common/zb-rs/src/nwk/service/reception.rs:187-229 | a step with a free address keeps network addresses distinct |
| NeighborTable.RunKeepsShort | common/zb-rs/src/nwk/service/routing.rs:219-242 | so does a run of such steps |
| NeighborTable.RejoinKeepsShortIff | common/zb-rs/src/nwk/commands/rejoin_request.rs:74-93 | a rejoin that takes effect keeps addresses distinct exactly if no other surviving entry holds its address |
| NeighborTable.RejoinAddressIsFreeIff | common/zb-rs/src/nwk/service/routing.rs:547-568 | a rejoin ends up with a free address exactly if it asked for the router's own, for one the map gives to another device, or for one no other surviving entry holds |
| NeighborTable.RejoinRenamesIff | common/zb-rs/src/nwk/service/routing.rs:547-568 | a device that rejoins under its own entry's address keeps it exactly if the map knows it there |
| NeighborTable.RejoinCanDuplicate | common/zb-rs/src/nwk/service/routing.rs:561-566 | a table and a rejoin after which two entries share an address |
| NeighborTable.ConflictIff | common/zb-rs/src/nwk/service/routing.rs:547-568 | the exact addresses the check reports |
| NeighborTable.StepRemoves | common/zb-rs/src/apl/zdp/service.rs:636-655 | what leaving, announcing, expiry and a refresh change, entry by entry |
| NeighborTable.NeighborStore.CleanUp | common/zb-rs/src/nwk/nib.rs:197-199 | exactly the entries at the positions that expire later than now stay, in order |
| NeighborTable.NeighborStore.HandleAssociate | common/zb-rs/src/nwk/service/reception.rs:187-229 | a known device leaves exactly the unexpired entries; any other leaves those of other devices and, if fewer than 32, a new last entry with the given type, address, relationship and expiration; the answer is the address of the device's entry |
| NeighborTable.NeighborStore.HandleRejoin | common/zb-rs/src/nwk/commands/rejoin_request.rs:54-93 | among the unexpired entries the known device is renamed, or the device is entered anew as a child, under the requested address unless that conflicts |
| NeighborTable.NeighborStore.DirectlyJoin | common/zb-rs/src/nwk/nlme.rs:591-613 | a device already present changes nothing; any other leaves the unexpired entries and, if fewer than 32, its new entry |
| NeighborTable.NeighborStore.HandleLeave | common/zb-rs/src/nwk/commands/leave.rs:53-55 | exactly the entries under other addresses stay, in order |
| NeighborTable.NeighborStore.ExamineChangedParent | common/zb-rs/src/nwk/service/reception.rs:461-517 | the first entry under the source address that is an end device is removed, unless the frame came from the device itself or is a recorded broadcast |
| NeighborTable.SortSorts | common/zb-rs/src/nwk/commands/link_status.rs:167 | sorting by address gives an ascending permutation |
| NeighborTable.SortIsStable | common/zb-rs/src/nwk/commands/link_status.rs:167 | sorting keeps every entry, orders by address and keeps the order of equal addresses |
| LinkStatus.MakeLinkStatusCommands | common/zb-rs/src/nwk/commands/link_status.rs:141-200 | the unexpired entries are sorted in place, stably; one frame, or two from 31 entries on, each with its sixteen neighbors, both costs, the count and the flags |
| LinkStatus.FramesAre | common/zb-rs/src/nwk/commands/link_status.rs:170-195 | number, flags, counts and entries of the frames in plain numbers |
| LinkStatus.FramesAreSorted | common/zb-rs/src/nwk/commands/link_status.rs:171-183 | every frame is sorted and has at most sixteen entries |
| LinkStatus.FramesShareOne | common/zb-rs/src/nwk/commands/link_status.rs:144-146 | consecutive frames share exactly one entry, others none |
| LinkStatus.SentIsPrefix | common/zb-rs/src/nwk/commands/link_status.rs:170-195 | n frames carry exactly the first 15 n + 1 sorted neighbors |
| LinkStatus.WholeTableIsSentIff | common/zb-rs/src/nwk/commands/link_status.rs:152-165 | the whole table is sent exactly if it has at most 16 entries or one more than a multiple of 15 |
| LinkStatus.HandleLinkStatusCommand | common/zb-rs/src/nwk/commands/link_status.rs:83-136 | the first entry under the sender gets the new expiration, and the cost the frame gives the receiver unless its flags put the receiver outside; every other entry and field stays |
| LinkStatus.LearnedFromFrame | common/zb-rs/src/nwk/commands/link_status.rs:83-136 | what a receiver before, in or behind a frame records |
| LinkStatus.CoveredNeighborsLearn | common/zb-rs/src/nwk/commands/link_status.rs:83-136 | a neighbor the frames cover ends with the sender's cost for it; one they do not cover is given the default cost |
| LinkStatus.OnlyNeighborLearns | common/zb-rs/src/nwk/commands/link_status.rs:186-190 | a single neighbor learns its cost although the frame claims to be first and last |

## Left out

- Medium access, drivers, timers, jitter, retries and tasks: radio and executor plumbing.
- AES, CCM and counter mode themselves: uninterpreted, with the law stated above. Their limit on message length is not modelled; frames are far below it.
- The byte library and its derive macro are not part of this model: a short buffer is an incomplete input, an absent optional field writes nothing, a bool is any byte but zero.
- NwkFrames.NewHeader: without source routes, because the format of their lists is fixed by the derive macro of the byte library.
- NwkFrames.HeaderRoundTrip: headers with multicast control or a source route are never written here, and reading one ends in a result of its own.
- ApsFrames.HeaderRoundTrip: likewise for headers with the extended header.
- Network and application-support commands stand as the bytes they are written as. Reading them is a parameter that may refuse any bytes; the codecs of the single commands are not modelled.
- Mesh route discovery, route tables, the broadcast transaction table and APS fragmentation.
- Keys and counters reloaded from storage after a restart, and the policy for incoming frame counters beyond the comparison in decryption.
- NonceRuns.NwkNoncesNeverRepeat: runs without a reload of counters from storage; a reload can set a counter back.
- TreeRouting.TreeRoutingDelivers: over the integers, with the coordinator taking the descending branch directly, because the `u32` and `u8` arithmetic of the source fails there; what the source completes is TreeRouting.CheckedRoutingDeliversIff.
- TreeRouting.TrailFollowsTreePath: over the integers, as TreeRouting.TreeRoutingDelivers.
- TreeRouting.NextHopRefinesTree: over the integers; in the arithmetic of the source it is TreeRouting.CheckedNextHopIff.
- TreeRouting.DescendantIffBelow: over the integers; in the arithmetic of the source it is TreeRouting.CheckedIsDescendantIff.
- TreeRouting.SearchRoutingAddress: the sums around the block sizes are integers; they stay below 2^17 in trees that fit 16 bits.
- NeighborTable.AssignChildAddress: the random source is a sequence of draws; the endless loop over draws ends with the sequence.
- BitStruct.RoundTripIffAllFit: values stand as the bits of their fields; which bits an enumeration accepts is modelled for the frame and security controls only.
- LinkStatus.MakeLinkStatusCommands: the quotient in floating point is the integer quotient, which it equals for every length the table can have.
- AttributeStore.Cluster.WriteAttributes: a value of the Rust type stands as the ZCL value it is reported as; reading attributes and configuring reports by command only repeat what is modelled.
- Attribute access flags other than write, and the decision when to report.
- AddressBlocks.WrappingCSkipIff: only the value is modelled; a build without overflow checks also wraps in its callers.
