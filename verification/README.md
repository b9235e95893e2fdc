# A verified model of the gobgp command-line client

This Dafny project models the part of the `gobgp` client where single branches do not tell the
whole story: the MRT injection pipeline, the keyword-argument parser and the commands that index
into its result, the listing of capabilities, neighbors, routes and validation results, and the
arithmetic behind addresses and elapsed times. Verify it with `dafny verify dfyconfig.toml`.

## What is proved

**MRT injection** (`MrtWire`, `NextHops`, `Injection`, `Window`, `Counting`, `Pipeline`). A dump is a byte
string. Reading it is an exact inverse of writing records (RFC 6396, section 2) up to the first one with an
extended timestamp, and a PEER_INDEX_TABLE body
(section 4.3.1) means a table if and only if it begins with that table's serialization. One
sequential process, `Inject`, says what a dump amounts to: which peer table is in force at each
record, which paths a record yields, which records count, and which batches fall into the skip/count
window, int64 wrap-around included. The client itself is two processes around a bounded channel,
with a daemon that may refuse at any point; a schedule is any sequence of enabled steps. Every
schedule is finite, never stuck, keeps the queue within its bound and sends a prefix of the
sequential outcome. What is ever sent comes from records in dump order and from their entries in entry
order, each path with the AS and the ID of its peer in the latest preceding peer table. Success means
exactly that outcome was sent, and is possible exactly with a sound dump. An abort means the dump faults
with that error; then any number of the last `queueSize + 1` batches can be lost, and never more. How much
can have been sent when the stream fails is exact as well.

**Arguments** (`Arguments`, `Neighbors`, `PolicyArguments`, `TcpAo`). A group is the run of words
after the last mention of its key; rendering groups in any order and parsing them gives them back.
Every index into the groups made by `modNeighbor` is in range, and the request it sends is determined
field by field from the words. The in-place removal of
`default accept|reject` is exact on the result and on the array. Key specifications are
characterised in both directions.

**Listings** (`Capabilities`, `Prefixes`, `RibListing`, `Validation`, `Columns`, `Elapsed`). The
capability list is a faithful merge with one multiprotocol block, for every order an unstable sort
may leave. Bit-string prefixes are containment of networks, and their order is numeric order. Rejected
and accepted paths weave back into the original. Validation prints the first path of each origin, as long as each of them has a
result to print.
Column widths are the least that fit. Elapsed-time texts can be read back.

## Where the code and its documentation differ

The model follows the code. Each difference is a lemma that says exactly when it shows.

- `count` is documented as the number of records to inject. `0` without a skip injects everything, a
  negative count with a larger skip nothing, and a negative skip shortens the count (`CountExamples`). The
  documented number comes out of every dump exactly under a condition on the two options
  (`CountIsHonouredIff`).
- The client prints that only-best has no effect together with a peer AS. It does have one
  (`OnlyBestTrimsWithPeerAsn`), exactly when more than one entry survives (`OnlyBestChangesIff`).
- The usage text of `neighbor add` shows the cluster ID of `route-reflector-client` as optional. It is
  required (`ClusterIdIsNotOptional`, `BareReflectorClientIsRefused`).
- An IPv6 route shown through its link-local next hop loses it on injection, even without an
  override (`UnchangedDisplayIff`, `LinkLocalNextHopIsLost`).
- A record with an extended timestamp ends the process if the process gets that far, since the header is
  read as 12 bytes (`ExtendedTimestampAborts`).
- `adj-in <prefix> validation` is documented to show the validation result of a prefix. The daemon sends no
  result unless it has an RPKI server (`pkg/server/server.go:3092-3101`), and the client dereferences it
  unguarded: it then crashes at the first path with an AS, and prints nothing (`NothingWithoutRpki`,
  `OnePathCrashes`). The listing is complete exactly if every first path of an origin can be printed
  (`ListsAllIff`).
- A row of the table of routes is out of line if the route is stale and validated in a table that shows the
  best ones, or if its identifier has more than three digits; its attributes also if it is a day old
  (`TableAlignedIff`, `StaleAndValidIsOutOfLine`).

## Assumptions

- Code outside the model enters as arbitrary functions: the decoders of RIB, GEO_PEER_TABLE and
  BGP4MP bodies and the marshalling of paths (`Injection.Env`), family names, name resolution,
  interfaces and the daemon's peers (`Neighbors.Env`), the daemon's answers to a stream (`Pipeline.Daemon`), `net.ParseCIDR` (`Prefixes.Parser`), key files
  with their base64 decoding (`TcpAo.KeyFiles`). The theorems hold for all of them.
- The dump is a finite byte string; a read error other than the end of input looks like a short read.
- A rebuilt MP_REACH_NLRI attribute has no link-local next hop, as the constructor in
  `pkg/packet/bgp/bgp.go` is called with one next hop only.
- Whether a path comes with a validation result and with a prefix that decodes is given (`Validation.Path`).
- `sort.Slice` returns some sorted permutation; nothing is assumed about equal elements.
- Texts in tables are ASCII, so that lengths in octets and in characters agree.

## Model

| member | source | states |
|---|---|---|
| MrtWire.HeaderRoundTrip | pkg/packet/mrt/mrt.go:142-166 | a serialized header parses back to itself, extended timestamp included, whatever follows |
| MrtWire.HeaderBytes | pkg/packet/mrt/mrt.go:142-166 | a header that parses serializes to exactly the bytes it was read from |
| MrtWire.HeaderOctets | pkg/packet/mrt/mrt.go:142-166 | which octets make a header, and each field as a big-endian number; types 17, 33 and 49 have microseconds |
| MrtWire.FrameOfSerialized | cmd/gobgp/mrt.go:73-91 | framing the concatenation of any well-formed records gives those before the first extended timestamp, and a clean end if and only if there is none |
| MrtWire.FrameIsExact | cmd/gobgp/mrt.go:73-91 | for every input the records found are a prefix of it, and the end is clean if and only if they are all of it |
| MrtWire.DecodePeerOfSerialized | pkg/packet/mrt/mrt.go:230-292 | a serialized peer entry decodes to itself and leaves what follows |
| MrtWire.DecodePeerIsExact | pkg/packet/mrt/mrt.go:230-292 | a decoded peer entry and the rest make up the data |
| MrtWire.PeerOctets | pkg/packet/mrt/mrt.go:230-292 | bit 0 of the type octet announces a 16-octet address, bit 1 a 4-octet AS, which is big-endian; all fields are taken from their octets |
| MrtWire.DecodePeerList | pkg/packet/mrt/mrt.go:343-352 | the peer loop decodes the announced number of entries in order, or fails as a whole |
| MrtWire.ParsePeerIndexTable | pkg/packet/mrt/mrt.go:323-355 | the parser agrees with the table that the body announces, on every input |
| MrtWire.PeerTableIff | pkg/packet/mrt/mrt.go:323-371 | a body reads as a table if and only if it begins with that table's serialization |
| MrtWire.OnePeerTable | pkg/packet/mrt/mrt.go:323-355 | the octets of a body with one peer, whatever the view name |
| MrtWire.TableOctets | pkg/packet/mrt/mrt.go:323-355 | a whole body given as octets reads as a table of peer 10.0.0.1 with AS 65001 |
| NextHops.GetNextHop | cmd/gobgp/common.go:481-498 | the first attribute that bears a next hop decides, by its link-local address if the global one is unspecified |
| NextHops.ShownIs | cmd/gobgp/common.go:481-498 | the first attribute of type 3 or 14 is shown, the latter by its link-local address exactly beside 0.0.0.0 or :: |
| NextHops.LinkLocalIff | cmd/gobgp/common.go:489-492 | link-local are exactly 169.254.0.0/16, plain or mapped, and fe80::/10 |
| NextHops.OverrideInPlace | cmd/gobgp/mrt.go:144-153 | the entry's own slice afterwards has the override in its first NEXT_HOP and nothing else changed |
| NextHops.RebuildLoop | cmd/gobgp/mrt.go:154-169 | the new list is the old one with every MP_REACH_NLRI rebuilt |
| NextHops.RewriteIsExact | cmd/gobgp/mrt.go:142-169 | number, order and types of attributes are kept, and every attribute's new value is determined |
| NextHops.RewriteIsIdempotent | cmd/gobgp/mrt.go:142-169 | rewriting twice is rewriting once |
| NextHops.OverrideShownIff | cmd/gobgp/mrt.go:142-169 | the override is the next hop on display if and only if the deciding attribute is of the rewritten type or already leads there |
| NextHops.UnchangedDisplayIff | cmd/gobgp/mrt.go:154-169 | without an override the display is kept unless a link-local next hop beside the unspecified address is rebuilt away |
| NextHops.LinkLocalNextHopIsLost | cmd/gobgp/mrt.go:160-166 | a concrete route that is shown through fe80::1 before and through the unspecified address after |
| Injection.ParsesIff | pkg/packet/mrt/mrt.go:998-1086 | exactly which types, subtypes and bodies parse |
| Injection.BuildBatch | cmd/gobgp/mrt.go:130-182 | the entry loop computes the batch or the first error; afterwards each entry's own slice is overwritten if it is IPv4, its peer passed the filter and nothing failed before it, and otherwise as it was |
| Injection.SurvivorsAreExact | cmd/gobgp/mrt.go:132-140 | the survivors are all entries if no peer AS is asked for, and otherwise those whose peer has it, once each, in entry order |
| Injection.Attribution | cmd/gobgp/mrt.go:123-182 | given the table in force, a batch exists if and only if all indices are in range and the rewritten attributes of all survivors marshal; it is one path per survivor with that peer's AS and ID, or the first with only-best |
| Injection.EveryEntryIsInjected | cmd/gobgp/mrt.go:130-178 | without a peer AS and only-best, path k is that of entry k, for every entry |
| Injection.FirstError | cmd/gobgp/mrt.go:132-176 | the first entry that is not fine decides the error, by its peer index or by its path |
| Injection.OnlyBestChangesIff | cmd/gobgp/mrt.go:179-182 | only-best changes a batch if and only if more than one entry survives, peer AS or not |
| Injection.OnlyBestTrimsWithPeerAsn | cmd/gobgp/mrt.go:179-182 | with peer AS 65001 and two routes of that AS, only-best drops the second |
| Injection.RolesIff | cmd/gobgp/mrt.go:93-134 | exactly which records count, which replace the peer table and which end the process |
| Injection.FatalErrors | cmd/gobgp/mrt.go:93-134 | which error a fatal record gives, by subtype and table |
| Injection.NewTableIff | cmd/gobgp/mrt.go:106-108 | the peer table becomes ps if and only if the body begins with a serialized table of ps |
| Window.TableAtIsMostRecent | cmd/gobgp/mrt.go:72-125 | the table in force is that of the latest preceding PEER_INDEX_TABLE, and none exactly if there was none |
| Window.WindowOf | cmd/gobgp/mrt.go:184-191 | for all options and inputs, overflow included: which counted batches are handed over, and with which end or error |
| Window.ExtendedTimestampAborts | cmd/gobgp/mrt.go:74-85 | a dump with an extended timestamp ends in a read error if and only if no earlier record is fatal and the count does not stop the process first |
| Window.OneExtendedRecordAborts | cmd/gobgp/mrt.go:74-85 | a dump of one such record with an empty body ends so, whatever the options |
| Window.WindowIsSlice | cmd/gobgp/mrt.go:184-191 | below 2^63 records the window is one slice of the counted batches, of the stated length |
| Counting.CountIsHonouredIff | cmd/gobgp/common.go:110-111 | the documented number of batches comes out of every dump, whatever its decoders, if and only if a condition on count and skip holds or both families are skipped |
| Counting.CountExamples | cmd/gobgp/mrt.go:184-191 | dumps of any size on which 0, -1 with skip 2, and 5 with skip -2 inject all, none and three records |
| Pipeline.StepKeepsInv | cmd/gobgp/mrt.go:66-211 | every step of either process keeps sent, in transit and still to come equal to the sequential outcome, and the queue within bounds |
| Pipeline.EveryRunIsSafe | cmd/gobgp/mrt.go:66-211 | in every interleaving at every moment, sent plus in transit is a prefix of the sequential outcome, and at most queueSize + 1 batches are in transit |
| Pipeline.EveryExitIsExplained | cmd/gobgp/mrt.go:66-218 | success means everything was sent and the dump is sound; an abort means the dump has that fault and at most queueSize + 1 batches are lost |
| Pipeline.LossIff | cmd/gobgp/mrt.go:70-201 | a run can abort with exactly k batches sent if and only if the dump is faulty and has k to k + queueSize + 1 batches |
| Pipeline.SuccessIff | cmd/gobgp/mrt.go:66-218 | some schedule succeeds if and only if the dump is sound |
| Pipeline.StreamFailureIff | cmd/gobgp/mrt.go:193-218 | the stream can fail with exactly k batches sent if and only if k is 0, or less than all, or all of a sound dump |
| Pipeline.StepDecreases | cmd/gobgp/mrt.go:73-211 | every step of every schedule lowers one natural number |
| Pipeline.NeverStuck | cmd/gobgp/mrt.go:66-211 | while the process is running, some step is enabled, also if the stream never fails |
| Pipeline.OutcomeIsDetermined | cmd/gobgp/mrt.go:66-218 | schedules are bounded, and complete ones over a healthy stream all end the way the dump demands |
| Pipeline.SuccessSendsTheWindow | cmd/gobgp/mrt.go:37-219 | end to end from bytes: a successful schedule has sent exactly the window's batches in record order, below 2^63 records one slice of the counted ones |
| Pipeline.SentPathsAreAttributed | cmd/gobgp/mrt.go:93-201 | in every run the batches sent come from records at increasing positions, and the paths of each from entries in entry order, with the family, prefix, age and attributes of the entry and the AS and ID of its peer in the latest preceding peer table |
| Pipeline.InjectMrt | cmd/gobgp/mrt.go:37-219 | under any scheduler and daemon the command ends, refusing a queue smaller than one, with an explained exit; the stream fails only where the daemon refuses, so that one which accepts everything leaves the outcome to the dump |
| Arguments.ExtractReserved | cmd/gobgp/common.go:157-196 | the groups are those of the scan, and it fails if and only if some group does not fit its arity, in whatever order the map is visited |
| Arguments.GroupMeaning | cmd/gobgp/common.go:168-175 | a mentioned key owns the run after its last mention, "" the leading run, and no other group exists |
| Arguments.FitsIff | cmd/gobgp/common.go:176-194 | each arity in terms of the words after the last mention: none, exactly one, at least one |
| Arguments.SingleWord | cmd/gobgp/common.go:176-194 | a one-word key that passes is followed at its last mention by exactly one plain word, and that is its group |
| Arguments.GroupsOfRender | cmd/gobgp/common.go:157-175 | rendering groups with distinct keys in any order and grouping again gives the same map |
| Arguments.AsMapIsExact | cmd/gobgp/common.go:157-175 | that map holds each group, the leading words and nothing else, whatever the order |
| Neighbors.ModNeighbor | cmd/gobgp/neighbor.go:1286-1484 | usage is shown if and only if the words do not fit; otherwise the groups settle the outcome, and all indexing is in range |
| Neighbors.WellFormedIff | cmd/gobgp/neighbor.go:1286-1317 | a command fits if and only if every key has one word, the two flags none, and one address or interface is named |
| Neighbors.KeysAre | cmd/gobgp/neighbor.go:1287-1311 | the keys of each command |
| Neighbors.AritiesAre | cmd/gobgp/neighbor.go:1287-1311 | all keys take one word, but route-server-client and replace-peer-as none |
| Neighbors.WellFormedNamesOne | cmd/gobgp/neighbor.go:1314-1317 | a command that fits names exactly one neighbor, which is what the requests below rest on |
| Neighbors.DelRequest | cmd/gobgp/neighbor.go:1319-1355 | a deletion fails if and only if the neighbor is not found; it asks for the plain word or the interface, and all else is empty |
| Neighbors.AddRequest | cmd/gobgp/neighbor.go:1319-1363 | an addition is called by the plain word or the interface and follows the settings from an empty peer on; it fails if and only if the neighbor is not found or a setting is not acceptable |
| Neighbors.UpdateRequest | cmd/gobgp/neighbor.go:1326-1363 | an update follows the settings from the daemon's peer of that address on |
| Neighbors.RoutingAcceptableIff | cmd/gobgp/neighbor.go:1366-1390 | AS numbers are decimal up to 2^32 - 1, and every family is known |
| Neighbors.SessionAcceptableIff | cmd/gobgp/neighbor.go:1403-1452 | the ranges of the other numbers, the two values of remove-private-as, and a keychain for a send ID |
| Neighbors.RoutingLands | cmd/gobgp/neighbor.go:1366-1402 | the field in which each routing setting ends up, and what stays without it |
| Neighbors.SessionLands | cmd/gobgp/neighbor.go:1403-1452 | the field in which each session setting ends up, and what stays without it |
| Neighbors.UpdateNeighborConfig | cmd/gobgp/neighbor.go:1365-1454 | it succeeds if and only if the settings are acceptable, takes over each given one and keeps every other |
| Neighbors.LastMentionWins | cmd/gobgp/neighbor.go:1286-1324 | of a repeated setting the word after the last mention counts |
| Neighbors.TrailingKeyIsRefused | cmd/gobgp/neighbor.go:1314-1317 | a command line that ends in a one-word key is refused |
| Neighbors.ClusterIdIsNotOptional | cmd/gobgp/neighbor.go:1302-1317 | a command with route-reflector-client that is right in all else is accepted if and only if the key has exactly one word |
| Neighbors.BareReflectorClientIsRefused | cmd/gobgp/neighbor.go:1302-1317 | `10.0.0.1 as 65000 route-reflector-client` is refused, though it is right in all else |
| PolicyArguments.ExtractDefaultAction | cmd/gobgp/neighbor.go:1208-1226 | result and array afterwards: the pair is gone, the rest moved down two slots, the last two slots stay; otherwise nothing changes |
| PolicyArguments.ActionIff | cmd/gobgp/neighbor.go:1215-1222 | a word is accept or reject if and only if it is so spelled, in any mixture of cases |
| PolicyArguments.ExtractOfInserted | cmd/gobgp/neighbor.go:1208-1226 | a pair put anywhere into names without "default" is extracted and leaves those names |
| PolicyArguments.InsertedOfExtract | cmd/gobgp/neighbor.go:1208-1226 | putting the extracted pair back gives the arguments again |
| Capabilities.Lookup | cmd/gobgp/neighbor.go:321-336 | a capability is found if and only if its key is in the list, and it is the first one with that key |
| Capabilities.SameKeyIff | cmd/gobgp/neighbor.go:321-336 | multiprotocol capabilities are the same by family, all others by code |
| Capabilities.Merge | cmd/gobgp/neighbor.go:337-345 | the merge is the local list followed by what the remote one adds |
| Capabilities.AddedIsExact | cmd/gobgp/neighbor.go:340-345 | added is one remote capability for every key that only the remote side has |
| Capabilities.AddedIsFirst | cmd/gobgp/neighbor.go:340-345 | of several remote capabilities with one key the first is the one added |
| Capabilities.Print | cmd/gobgp/neighbor.go:351-372 | one line per capability labelled by the sides that have it, with one header before the first multiprotocol one |
| Capabilities.ListingIsLabelled | cmd/gobgp/neighbor.go:351-372 | for every sorted permutation the lines name its capabilities in order, advertised if and only if the local list has the key, received if and only if the remote one has, and never neither |
| Capabilities.OneSided | cmd/gobgp/neighbor.go:354-362 | a capability of one side alone is called advertised on the local side and received on the remote one |
| Capabilities.ListingIsFaithful | cmd/gobgp/neighbor.go:320-372 | for every sorted permutation: nothing lost, and the entries with code 1 in one block under one header |
| Prefixes.Cidr2Prefix | cmd/gobgp/common.go:144-155 | the key of a network, or the text itself if it is none |
| Prefixes.CoversIffPrefix | cmd/gobgp/common.go:144-155 | a key is a string prefix of another if and only if the network contains every address of the other |
| Prefixes.OrdersAgree | cmd/gobgp/common.go:144-155 | comparing expansions, octets and numbers is the same |
| Prefixes.NeighborLessIsStrictWeakOrder | cmd/gobgp/neighbor.go:170-187 | texts without a colon come before those with one, and the comparison is a strict weak order on all strings |
| Prefixes.V4NeighborOrderIsNumeric | cmd/gobgp/neighbor.go:170-187 | texts without a colon, read with /32, are in numeric order, as in the RIB |
| Prefixes.V6NeighborOrderIsNumeric | cmd/gobgp/neighbor.go:170-187 | so are texts with one, read with /128 |
| Prefixes.OtherNeighborOrder | cmd/gobgp/neighbor.go:170-187 | names that are no addresses are ordered by their texts |
| RibListing.VrfPrefix | cmd/gobgp/neighbor.go:1072-1076 | the prefix behind any route distinguisher is found, colons included |
| RibListing.Collect | cmd/gobgp/neighbor.go:1069-1079 | every destination is listed with its address, in order, unless one does not parse |
| RibListing.AddressOf | cmd/gobgp/neighbor.go:1069-1079 | the address is that of the prefix or, in a VRF, of what follows the route distinguisher |
| RibListing.ListingIsPermutation | cmd/gobgp/neighbor.go:1081-1088 | the sorted destinations are a permutation in numeric order per family |
| RibListing.FilterPaths | cmd/gobgp/neighbor.go:1096-1101 | the loop keeps exactly the paths of the wanted kind |
| RibListing.FilterDestinations | cmd/gobgp/neighbor.go:1093-1104 | every listed destination is filtered in place, once in effect |
| RibListing.AcceptedAndRejected | cmd/gobgp/neighbor.go:1093-1104 | accepted and rejected are complementary and order-preserving: woven together they are the paths |
| RibListing.RejectedAreFiltered | cmd/gobgp/neighbor.go:1093-1104 | rejected are exactly the paths marked filtered, accepted all others |
| Validation.ShownAs.CheckNotShown | cmd/gobgp/neighbor.go:731-744 | new if and only if not shown before, and shown afterwards |
| Validation.ShowValidationInfo | cmd/gobgp/neighbor.go:746-763 | a block is printed if and only if the origin is new and result and prefix are there; the origin is in the map even if the process then crashes |
| Validation.ShowValidation | cmd/gobgp/neighbor.go:1054-1059 | blocks are printed for exactly the first path of each origin, up to the first path that is local, malformed, or first of its origin and not printable; the end and the origins seen are exact |
| Validation.ListsAllIff | cmd/gobgp/neighbor.go:755-763 | only a local or malformed path, or the end, stops the listing if and only if every first path of an origin before it has a result and a prefix |
| Validation.NothingWithoutRpki | cmd/gobgp/neighbor.go:762-763 | if no path has a result, the listing of any paths prints nothing |
| Validation.OnePathCrashes | cmd/gobgp/neighbor.go:762 | one path from AS 65001 without a result crashes before its block, with the origin already in the map |
| Validation.AsPathIsLast | cmd/gobgp/neighbor.go:747-753 | of several AS_PATH attributes the last one counts |
| Validation.OriginIsLast | cmd/gobgp/neighbor.go:731-744 | the origin is the last AS of the last segment of the last AS_PATH |
| Validation.NoAsPathIsLocal | cmd/gobgp/neighbor.go:747-757 | a path without AS_PATH is local |
| Validation.ErrorIff | cmd/gobgp/neighbor.go:755-757 | the listing ends with an error if and only if it stops at a local path whose prefix decodes; any other stop is a crash |
| Validation.OneBlockPerOrigin | cmd/gobgp/neighbor.go:1054-1059 | no origin is printed twice; none before the stopping path is missing, and none before the first local or malformed path if and only if that is what stops the listing |
| Columns.ColumnWidths.Update | cmd/gobgp/neighbor.go:51-73 | each width becomes the maximum of itself and its cell |
| Columns.ColumnWidths.ShowRoute | cmd/gobgp/neighbor.go:599-729 | header and rows of all paths of all destinations are printed with the widths that all rows lead to |
| Columns.WidthsAreTight | cmd/gobgp/neighbor.go:41-73 | widths never shrink, every row fits, and no smaller widths would do |
| Columns.CellOfLine | cmd/gobgp/neighbor.go:692-728 | what stands in a line at a column's offset is its cell |
| Columns.TableAlignedIff | cmd/gobgp/neighbor.go:548-729 | a row's columns start where the header's do if and only if it is not stale, validated and shown with best marks, and its shown identifier is below 1000; its attributes do if, moreover, a shown age is below a day |
| Columns.StaleAndValidIsOutOfLine | cmd/gobgp/neighbor.go:548-571 | a stale, valid best route has four symbols, so that its prefix begins one column after the header's |
| Columns.SymbolsMean | cmd/gobgp/neighbor.go:548-571 | which symbol stands for what |
| Columns.ColumnsAre | cmd/gobgp/neighbor.go:599-729 | which text stands under which heading |
| Columns.OtherTextsAre | cmd/gobgp/neighbor.go:599-681 | what stands for missing values, the identifier of either direction, the age, the attributes and the filter |
| Columns.TailIs | cmd/gobgp/neighbor.go:692-728 | the other headings, and the order behind the tracked columns |
| Columns.PlainLine | cmd/gobgp/neighbor.go:692-728 | a line of the plainest table in full |
| Columns.DefaultWidths | cmd/gobgp/neighbor.go:41-49 | the widths of a table without rows |
| Elapsed.FormatTimedelta | cmd/gobgp/common.go:124-142 | the text is that of the absolute difference, for every int64 including the least |
| Elapsed.ReadOfRendered | cmd/gobgp/common.go:131-141 | reading the text back gives the number of seconds |
| Elapsed.RenderedIs | cmd/gobgp/common.go:131-141 | the text in terms of days, hours, minutes and seconds |
| Elapsed.RenderedIsInjective | cmd/gobgp/common.go:131-141 | spans that look the same are equally long |
| Elapsed.TrueDistanceIff | cmd/gobgp/common.go:124-130 | the true distance is shown if and only if it is at most 2^63 seconds |
| TcpAo.DeleteKeyIff | cmd/gobgp/tcp_ao.go:142-156 | a text names a pair if and only if it is two numbers up to 255 around one comma |
| TcpAo.IdIff | cmd/gobgp/tcp_ao.go:81-87 | an ID is a decimal number up to 255 |
| Text.ValueOfMore | cmd/gobgp/tcp_ao.go:81-87 | numbers on the command line are decimal |
| TcpAo.DeleteKeyAsTyped | cmd/gobgp/tcp_ao.go:142-156 | a pair as it is typed, the send ID first |
| TcpAo.DeleteKeysRoundTrip | cmd/gobgp/tcp_ao.go:142-168 | a rendered list of pairs parses to the same list in order |
| TcpAo.KeyIff | cmd/gobgp/tcp_ao.go:89-140 | a text is a key specification if and only if it spells that key with a file of 1 to 80 octets |
| TcpAo.KeyAsTyped | cmd/gobgp/tcp_ao.go:89-140 | a key specification as it is typed, with and without the option |
| TcpAo.AlgorithmNames | cmd/gobgp/tcp_ao.go:32-45 | the name of each algorithm |
| Lists.ParseAll | cmd/gobgp/tcp_ao.go:158-168 | the loop gives all results in order, or none |
| Lists.TraverseIff | cmd/gobgp/tcp_ao.go:158-168 | a result exists if and only if every element parses, and then holds them in order |

## Left out

- The decoders of RIB, GEO_PEER_TABLE and BGP4MP bodies, NLRI and path attributes: arbitrary functions here.
- Opening and decompressing the dump, gRPC calls, JSON and debug output, cobra wiring: input and output only.
- Path identifiers of add-path RIB entries: injection does not pass them on.
- The detail lines under graceful restart, add-path and other capabilities, and the other lines of `showNeighbor`: formatting of fields.
- The text of addresses and of ParseCIDR's input: parsing is an arbitrary function to valid networks.
- The option words of `showNeighborRib`, `counter`, `checkAddressFamily` and `modNeighborPolicy` around the extraction: one-branch mappings.
- `formatTcpAoPeerState`: a copy and a sort of the kind already covered.
- `loadCertificatePEM`, `loadKeyPEM`, TLS set-up, `cmd/gobgp/policy.go` and the remaining commands.
- Columns.ColumnWidths.ShowRoute: the texts of NLRI and attributes are given, since their formatting is not part of this model.
- RibListing.Collect: stops where the code dereferences nil, and does not model the crash report.
- Neighbors.ModNeighbor: an error is reported without its text, and a peer half updated before an error is not kept, since the code discards it; for an empty address and a daemon without peers it fails where the code crashes.
