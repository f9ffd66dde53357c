# A verified model of the iLS Gateway data plane and fail-open policy

The gateway intercepts the WLoc replies that selected devices receive, writes a configured location into them and
lets everything else through unchanged. When anything is wrong it must fail open: no interception, no byte changed, no
reply that differs from the upstream one. This project states what that means and proves it of a model of the code.
`dafny verify dfyconfig.toml` checks all of it.

Five parts, each a group of modules:

1. **The byte rewriter** (`Bytes`, `Varint`, `Wire`, `WLoc`, `WLocGrowth`, `WLocMeaning`, `WLocAbsorb`, `Envelope`,
   `RewriteBody`). A wire-format parser, a rewriter on three levels and four envelopes, once as loops over bytes and
   once on the tree of fields. The loops refine the tree; the tree is specified by what a last-one-wins reader sees.
2. **The fail-open policy machine** (`NftPolicy`, `Chronicle`, `ApplySteps`, `Targets`, `Ctl`, `Watchdog`, `Devices`).
   `Ctl.Router` is the router: nft sets, markers, clock, configuration, daemon health, bypass request. Any command or
   query may fail and the process may be killed before any of them; before every single command of such a process
   others may reload the firewall and targets may time out. A ghost log keeps every moment there has been, so that what
   holds "always" is said of every moment between two commands, not only of the end of a call. `Watchdog.Run` takes any
   sequence of ticks, commands and events.
3. **The ClientHello classifier and relay** (`ClientHello`, `Sniff`, `Relay`). `Relay.Session` is the dial, the two
   copies and the function that waits for the first of them; `After` takes any interleaving of their steps, with
   reads, writes and dial failing anywhere.
4. **The resource ledger** (`Budget`, `Slots`, `BoundedRead`, `Outcome`, `Gateway`). Requests and connections are
   state machines over one shared state, and `Run` takes any interleaving of their atomic steps. `Gateway` joins the
   proxy to the rewriter, from upstream bytes to what the client decodes.
5. **Profile activation with rollback** (`Profiles`), composed with the selection of the profile in force.

Conventions. A loop of the original is a method with that loop, proved equal to a specification function; the laws
are lemmas about the function. What matters about numbers, layouts, codes and limits is stated in laws with the numbers
written out, independently of the function that carries them: what a byte layout is (`Wire`, `Envelope`,
`ClientHello`), which value a field reads as (`WLocMeaning`), who is intercepted (`Sniff`), what belongs in which set
(`NftPolicy.InForce`), when status reports effective (`Ctl.EffectiveMeans`). The outcome of a command that may fail is
chosen nondeterministically, so that a contract holds for every pattern of failures; ghost flags say which kind of
failure there was. 64-bit and 32-bit arithmetic is written out where the code truncates or could wrap.

The log of `Ctl.Router` (module `Chronicle`) holds every moment, and of each: the sets, the policy the device sets were
filled from, whether they held something else when that policy took over (`tainted`), and how far the interfaces had
been written and after how many of them the last reload came. Its fault flags: `died` (a ctl process was killed),
`misread` (a query failed), `lostFlush`, `lostMarker` (a flush or a marker removal failed) and `failed` (any command
that changes something failed); a round starts with all of them down. Two counters say what others did: reloads of the
firewall and timeouts of targets. "Undisturbed" in the table means that they stood still during the call.

## What the proofs turned up

- A failed flush followed by a failed listing makes `clear` return 0 with elements left, and the next policy is added
  to them. This is the only way to a mix of two policies, and it lasts until the device sets are empty again
  (`NeverMixed`, `ClearFor`, `MixedWhenListingLies`).
- apply_inner writes the interfaces before the devices, but a reload of the firewall in between restores the default
  interface, and the devices that follow are intercepted there, configured or not, until verification notices
  (`GuardedExactly`, `ReloadOpensDefault`).
- A tick can report success while `status` does not, in two ways besides interference from outside. The first:
  `target_refresh_due` is killed, exits non-zero, and the watchdog takes that as "nothing due". The second: the policy
  does not pass verification, the sets are emptied, and `rm -f nft_applied` fails; the marker then keeps the tick from
  applying anything, and it returns 0 over sets it has just emptied. A success is effective exactly when verification
  passes in the final state and the targets are current. The other way round, a tick can fail and leave everything as it
  was, for `status` to report effective, only when a flush and the removal of the marker have both failed, or a process
  was killed (`RunOnce`; `KilledQueryIsSuccess`, `StuckMarkerIsSuccess`, `NothingTakenDown`).
- Exact verification compares counts and membership. An IPv6 address configured in two spellings leaves room for one
  stale element; MACs, IPv4 addresses and interfaces do not (`AcceptedIsExact`, `ValidationGivesDistinct`,
  `AliasesHideStaleElements`). The daemon compares addresses where the scripts compare texts, and refuses such a
  configuration (`DaemonRefusesAliases`), so with a daemon that has loaded the same devices the gap is closed.
- The reader passes a stream through or intercepts it depending on how it is cut into reads, exactly when the first
  record is to be intercepted, is longer than 63489 bytes with its header, and the stream is longer than 65536 bytes
  (`ChunkingIrrelevantExactly`; `ChunkingCanMatter` has such a ClientHello). Records that section 5.1 of RFC 8446
  allows are shorter.
- relayPrefixed closes both connections as soon as one of its two copies ends, whichever it is. A side that ends first
  cuts the other off, with a nil result: an upstream that has ended gets no more of the request, and a client that has
  closed its sending half gets no more of the reply. A direction is certain to arrive whole exactly when nothing of it
  was unread or unwritten when the first copy ended (`FirstEndDecides`, `FirstEndCutsOff`, `NilResultLosesBytes`).
- In the historical layout of the server_name extension the name is not read when the two-byte prefix equals the length
  of what follows it, for example 0, 6 before the name "a" (`NameReadExactly`, `ShadowedExample`).
- A location with 9996 to 10000 fields may be rewritten once and refused afterwards, because the rewriter appends
  fields and only the top level is parsed again (`Absorption`, `SecondRewriteCanFail`). A whole body has two more ways
  not to come out as the second profile alone: it has outgrown 4 MiB, or its new bytes are an envelope that is tried
  earlier or a second marker (`BodyAbsorption`).
- `max_body_bytes` of exactly 64 MiB passes its own check and can never pass the check of `max_buffered_bytes`
  (`UsableBodyLimits`).
- A failed activation restores profiles whose option is spelled `1`; the configuration parser also takes `t`, `T`,
  `TRUE`, `true` and `True` for active, and those are lost (`RollbackIsExact`, `RollbackLosesOtherSpellings`).
- The length test after a successful bounded read, the clamp in the budget's release and the `sync.Once` around the
  slot release never take effect (`Fetch`, `DataPlane.Finish`, `Server.Release`).

## Model

| member | source | states |
|---|---|---|
| Varint.ReadVarintLoop | internal/provider/applewloc/wloc.go:180-192 | the loop with its two refusals at bytes 9 and 10 computes the little-endian base-128 value, or refuses |
| Varint.ReadVarintLocal | internal/provider/applewloc/wloc.go:180-192 | a success consumes 1 to 10 bytes, is below 2^64 and depends on no byte after those it consumed |
| Varint.VarintRoundTrip | internal/provider/applewloc/wloc.go:180-193 | every 64-bit value is read back from its encoding, whatever follows, and the encoding has at most 10 bytes |
| Varint.SignedRoundTrip | internal/provider/applewloc/wloc.go:193-195 | every int64, negative ones included, is read back through its two's complement |
| Varint.EncVarintShortest | internal/provider/applewloc/wloc.go:180-193 | the encoding written is never longer than any accepted encoding of the same value |
| Varint.LittleEndian | internal/provider/applewloc/wloc.go:180-192 | a byte below 128 is read as itself, any other as its low seven bits followed by 128 times what comes after it |
| Varint.TenthByte | internal/provider/applewloc/wloc.go:184-185 | after nine bytes that announce another, the tenth is accepted if and only if it is 0 or 1 |
| Wire.PayloadSwitch | internal/provider/applewloc/wloc.go:140-171 | the switch on the wire type finds the same payload extent as its specification, with every bound checked first |
| Wire.ReadField | internal/provider/applewloc/wloc.go:128-171 | one turn of the parser, with the 32-bit truncation of the field number before its range check |
| Wire.ParseLoop | internal/provider/applewloc/wloc.go:123-178 | the parser with its depth limit and its field limit, refusing at the first bad field or the 10001st field |
| Wire.OneLocal | internal/provider/applewloc/wloc.go:128-172 | a field that was read is read again from its raw bytes, whatever follows them |
| Wire.ConcatOfFields | internal/provider/applewloc/wloc.go:123-178 | what parses is exactly the concatenation of the raw bytes of its fields, each of which parses alone |
| Wire.FieldsOfConcat | internal/provider/applewloc/wloc.go:123-178 | printing fields and parsing them gives the same fields: the parser is the inverse of concatenation |
| Wire.VarFieldWellFormed | internal/provider/applewloc/wloc.go:194-195 | a re-emitted key and value parse back to that field |
| Wire.BytesFieldWellFormed | internal/provider/applewloc/wloc.go:194-212 | a re-emitted length-delimited field parses back to that field |
| Wire.FixedFieldsExactly | internal/provider/applewloc/wloc.go:148-168 | for every field number, a value of wire type 1 is a field if and only if it has eight bytes, one of wire type 5 if and only if it has four |
| Wire.AcceptedKeys | internal/provider/applewloc/wloc.go:134-138 | which keys begin a field: wire types 0, 1, 2 and 5 with a number whose low 32 bits are 1 to 2^29 - 1, which is the number of the field |
| Wire.SmallKey | internal/provider/applewloc/wloc.go:194-194 | the key of a number below 16 is one byte, the wire type in its low three bits |
| Wire.ParseLimits | internal/provider/applewloc/wloc.go:123-178 | a message parses if and only if its fields do, are at most 10000, and the level is at most 8 |
| WLoc.HasLocationLoop | internal/provider/applewloc/wloc.go:252-266 | true exactly when both coordinates occur as varints |
| WLoc.KeepLoop | internal/provider/applewloc/wloc.go:267-287 | the first loop of location writes every field in place, replaced or raw, and remembers exactly the numbers it replaced |
| WLoc.LocationLoop | internal/provider/applewloc/wloc.go:267-295 | the bytes written are the printed tree: fields in place, then what was missing in ascending order |
| WLoc.RewriteRecordLoop | internal/provider/applewloc/wloc.go:222-251 | the record loop refines the walk over the tree of fields: same failures, same bytes, same count |
| WLoc.RewriteProtoLoop | internal/provider/applewloc/wloc.go:197-221 | the message loop refines the walk over the tree of fields: same failures, same bytes, same count |
| WLocGrowth.MissingAtMostFive | internal/provider/applewloc/wloc.go:288-293 | a field list with both coordinates gets at most five fields appended |
| WLocGrowth.LocationGrowth | internal/provider/applewloc/wloc.go:267-295 | a rewritten location parses and grows no more than its share of the 20-fold bound |
| WLocGrowth.RecordGrowth | internal/provider/applewloc/wloc.go:222-251 | the bound through the inner length prefix |
| WLocGrowth.MessageGrowth | internal/provider/applewloc/wloc.go:197-221 | a rewritten message is at most 20 times as long, less 30 bytes for each location, and all its fields parse |
| WLocMeaning.LocationMeaning | internal/provider/applewloc/wloc.go:267-295 | a reader that lets the last value win sees latitude in field 1, longitude in 2, horizontal accuracy in 3, altitude in 5, vertical accuracy in 6 and, exactly when the profile has them, motion type in 11 and confidence in 12; every other number reads as before, every other field keeps its exact bytes and place; only what was missing is appended, once |
| WLocMeaning.ValsAre | internal/provider/applewloc/wloc.go:270-276 | the map of the code gives each of these numbers its value of the profile, and no other number any |
| WLocMeaning.RecordMeaning | internal/provider/applewloc/wloc.go:222-251 | field for field, exactly the fields that hold a location change, number 2 in a record of type 2 and number 5 in any other, and the count is their number |
| WLocMeaning.RewriteFailsExactlyWhenUnreadable | internal/provider/applewloc/wloc.go:197-251 | rewriting succeeds if and only if the message parses, every record in it (fields 2, 22 and 24) parses and every field at a location number in those parses |
| WLocMeaning.RewriteMeaning | internal/provider/applewloc/wloc.go:197-221 | the output parses to as many fields in the same order with the same numbers and wire types, untouched fields are byte for byte the same, the locations in records of type 2, 22 and 24 read as the profile says, and a count of 0 means output equals input |
| WLocAbsorb.LocationAbsorbs | internal/provider/applewloc/wloc.go:267-295 | writing p and then q into a location is writing q, when both set the same motion fields |
| WLocAbsorb.Absorption | internal/provider/applewloc/wloc.go:197-295 | a second rewrite succeeds if and only if every written location still has at most 10000 fields, and then gives byte for byte what q alone gives |
| WLocAbsorb.Idempotence | internal/provider/applewloc/wloc.go:197-295 | with that room, rewriting twice is rewriting once |
| WLocAbsorb.SecondRewriteCanFail | internal/provider/applewloc/wloc.go:173-175 | a concrete message, two coordinates and 9998 other fields, that is rewritten once and then refused |
| Envelope.UnwrapArpcLoop | internal/provider/applewloc/wloc.go:320-353 | the ARPC scan with its three skipped strings |
| Envelope.UnwrapMarkerLoop | internal/provider/applewloc/wloc.go:355-374 | the marker scan, stopping at the second position that parses |
| Envelope.UnwrapAny | internal/provider/applewloc/wloc.go:303-391 | each envelope kind is recognised as specified |
| Envelope.MarkerScan | internal/provider/applewloc/wloc.go:355-383 | the marker envelope is recognised exactly when one valid position exists, and ambiguous exactly when two do |
| Envelope.Rewrap | internal/provider/applewloc/wloc.go:317-388 | wrapping the unwrapped payload gives back the body, for all four kinds |
| Envelope.FixedRoundTrip | internal/provider/applewloc/wloc.go:305-319 | unwrapping a wrapped payload of up to 65535 bytes gives that payload and the same frame |
| Envelope.ArpcRoundTrip | internal/provider/applewloc/wloc.go:320-354 | the same for ARPC, with prefix and suffix bytes unchanged |
| Envelope.MarkerRoundTrip | internal/provider/applewloc/wloc.go:355-383 | the same for the marker envelope, unless the new bytes bring a second valid marker |
| Envelope.BareRoundTrip | internal/provider/applewloc/wloc.go:384-388 | the same for a body without envelope |
| Envelope.ArpcPrinted | internal/provider/applewloc/wloc.go:320-354 | version, three strings of any length, four bytes, a 32-bit length, a message and any rest: the message is what is unwrapped |
| Envelope.ArpcOnly | internal/provider/applewloc/wloc.go:320-354 | and what is unwrapped stands behind exactly such a header |
| Envelope.FixedPrinted | internal/provider/applewloc/wloc.go:299-319 | the eight bytes 0 1 0 0 0 any 0 0, a 16-bit length, a message and any rest: the message is unwrapped |
| Envelope.FixedOnly | internal/provider/applewloc/wloc.go:299-319 | and nothing else is taken for a fixed prefix |
| Envelope.MarkerPrinted | internal/provider/applewloc/wloc.go:355-383 | anything, 0 0 0 1 0 0, a 16-bit length, a message and any rest: the message is unwrapped, unless there is another valid position, and then the body is ambiguous |
| Envelope.MarkerOnly | internal/provider/applewloc/wloc.go:358-370 | a valid position holds those six bytes, a length and a message of that length |
| RewriteBody.RewriteLoop | internal/provider/applewloc/wloc.go:67-97 | the loop over the envelope kinds decides as the first kind that does not pass the body on |
| RewriteBody.TriedInOrder | internal/provider/applewloc/wloc.go:63-98 | up to 4 MiB the fixed prefix is tried first, then ARPC, then the marker, then the bare message, and the first that returns decides |
| RewriteBody.TryMeans | internal/provider/applewloc/wloc.go:74-95 | one envelope passes a body on exactly when it is absent or holds no location, refuses an ambiguous or unreadable one, and else rewrites it, unless the result is over 65535 bytes behind a 16-bit length |
| RewriteBody.ReparseNeverFails | internal/provider/applewloc/wloc.go:89-91 | the re-parse after rewriting never fails, and the number of fields is unchanged |
| RewriteBody.FixedPrefixAbsorption | internal/provider/applewloc/wloc.go:63-98 | a fixed-prefix body that is rewritten again shows the second profile only, or is refused exactly when the first output is over 4 MiB or some location has no room |
| RewriteBody.BodyAbsorption | internal/provider/applewloc/wloc.go:63-98 | the same for every envelope: in the envelope that took it the first time a second rewrite shows the second profile only, or is refused exactly when a second marker has appeared or some location has no room; otherwise the first output is over 4 MiB, or an earlier envelope takes it and decides |
| RewriteBody.TrySucceeds | internal/provider/applewloc/wloc.go:82-95 | a kind that succeeds has rewritten at least one location, its payload fits the length field it goes under, and the body stays within 20 times its length plus 4 |
| RewriteBody.BodyMeaning | internal/provider/applewloc/wloc.go:63-98 | everything outside the payload is kept, the payload carries the profile, the reported count is the number of locations, and unwrapping the result finds the new payload |
| ClientHello.ParseSNILoop | internal/proxy/classifier.go:75-155 | the parser with its cursor refines the recursive specification |
| ClientHello.ParseBody | internal/proxy/classifier.go:91-154 | the cursor over version, random, session, ciphers and compression stops at exactly the same bounds |
| ClientHello.FindLoop | internal/proxy/classifier.go:121-154 | the extension loop stops at the first type-0 extension of at least five bytes |
| ClientHello.NameLoop | internal/proxy/classifier.go:128-151 | the server-name list in both layouts |
| ClientHello.OnlyFirstRecord | internal/proxy/classifier.go:75-83 | bytes after the first record change nothing |
| ClientHello.NameReadExactly | internal/proxy/classifier.go:128-151 | a host name is read in either layout, for a two-byte historical prefix if and only if the prefix is not the length of what follows it |
| ClientHello.ShadowedExample | internal/proxy/classifier.go:131-151 | a concrete prefix and name that are not read |
| ClientHello.NameRoundTrip | internal/proxy/classifier.go:75-155 | the host name of any ClientHello of section 4.1.2 of RFC 8446 is read back, in the layout of section 3 of RFC 6066 or behind any historical prefix but that one; without a server_name extension none is |
| ClientHello.ParsesPrinted | internal/proxy/classifier.go:75-155 | any printed ClientHello parses to what its first type-0 extension holds |
| ClientHello.BodyAt | internal/proxy/classifier.go:75-90 | a name is read only from a ClientHello message that fills a handshake record |
| ClientHello.ExtensionsAt | internal/proxy/classifier.go:91-120 | behind version, random, session, cipher suites and compression methods, each with its length |
| ClientHello.ExtensionAt | internal/proxy/classifier.go:121-128 | in an extension of type 0 with at least five bytes |
| ClientHello.NameAt | internal/proxy/classifier.go:128-151 | as a non-empty entry of type host_name inside the list |
| Sniff.ReadAndClassify | internal/proxy/transparent_server.go:137-168 | the read loop decides as its specification on the sequence of reads |
| Sniff.NoByteLost | internal/proxy/transparent_server.go:137-168 | what was read followed by what is left is the stream |
| Sniff.StopsInTime | internal/proxy/transparent_server.go:143-167 | there is another read only while fewer than 65536 bytes are there, they begin like a handshake record, it is not complete, and no read has failed |
| Sniff.ChunkingIrrelevant | internal/proxy/transparent_server.go:117-168 | for any cut into reads of up to 2048 bytes the decision is that on the first complete record of what comes before the first error, if an intercepted record is at most 65536-2047 bytes long or all that comes before the error at most 65536 |
| Sniff.ChunkingIrrelevantExactly | internal/proxy/transparent_server.go:117-168 | all cuts of what comes before an error give the decision on its first complete record if and only if that condition holds |
| Sniff.InterceptsExactly | internal/proxy/classifier.go:36-72 | a ClientHello is intercepted if and only if it goes to port 443, fits 65536 bytes, says a host name that can be read, and the policy admits that name |
| Sniff.RunIntercepts | internal/proxy/transparent_server.go:117-168 | so is a connection, for any cut of what comes before an error that leaves room to read |
| Sniff.OnlyAdmitted | internal/proxy/classifier.go:36-72 | what is intercepted is a complete handshake record to port 443 with an admitted name in it |
| Sniff.ChunkingCanMatter | internal/proxy/transparent_server.go:137-168 | a concrete ClientHello of 63563 bytes and 2047 bytes after it: intercepted by its record, passed through in a cut that is given |
| Sniff.PrefixedConn.Read | internal/proxy/transparent_server.go:49-54 | reads through a prefixed connection take the prefix first and lose nothing |
| Relay.StepSound | internal/proxy/transparent_server.go:174-209 | every step of relayPrefixed or of one of its copies keeps the bytes of both directions together and the results in agreement with the copies |
| Relay.Relayed | internal/proxy/transparent_server.go:174-209 | in every state of every run each side has received a beginning of what the other sent, and all of it exactly when none of it is unread or unwritten; there is a result exactly when a copy has ended; a nil result means that the direction whose copy ended first is whole; the result channel never blocks; without an upstream nothing has moved |
| Relay.FirstEndDecides | internal/proxy/transparent_server.go:185-188 | once a copy has ended, a direction is certain to be delivered whole if and only if nothing of it was unread or unwritten at that moment |
| Relay.MayStillArrive | internal/proxy/transparent_server.go:185-188 | and as long as its copy is under way it may still be: which of the two is a race with the closing of the connections |
| Relay.FirstEndIsReturned | internal/proxy/transparent_server.go:185-188 | what is returned is the result of the copy that ended first, whatever happens after that |
| Relay.ClientClosedFirst | internal/proxy/transparent_server.go:180-181 | between the two closes nothing more is read from the client or written to it, and what was read may still reach the upstream |
| Relay.NothingAfterReturn | internal/proxy/transparent_server.go:180-188 | after the return both connections are closed and nothing moves |
| Relay.FirstEndCutsOff | internal/proxy/transparent_server.go:185-188 | for every stream and reply and every point in either: a run without any failure that ends there, with a nil result and the rest lost |
| Relay.NilResultLosesBytes | internal/proxy/transparent_server.go:185-188 | concrete runs: the upstream ends with one byte of the client left, and the client with one byte of the reply |
| Relay.Way.Proceed | internal/proxy/transparent_server.go:186-187 | one move of a copy: a read, a write, the end of its source, or a failure of either, a failing write with any part delivered |
| Relay.Session.Open | internal/proxy/transparent_server.go:191-204 | the dial, and the prefix written whole or in part; a failure of either returns without a copy |
| Relay.Session.Proceed | internal/proxy/transparent_server.go:205-207 | a copy that ends puts its result into the channel |
| Relay.Session.Leave | internal/proxy/transparent_server.go:200-208 | the first result is received, then the client connection is closed, then the upstream one |
| Relay.Session.Follow | internal/proxy/transparent_server.go:191-209 | any interleaving of these is the run of the state machine that the laws are about |
| Relay.RouteTransparent | internal/proxy/transparent_server.go:117-209 | a connection that is not intercepted is relayed from the first byte it sent: the upstream receives a beginning of the whole stream, the client one of the reply, each whole exactly when nothing is unread or unwritten, and certain to be whole exactly when nothing was when the first copy ended |
| NftPolicy.AcceptedIsExact | package/ils-gateway/root/usr/bin/locspoofctl:616-630 | a set that passes verification is the policy's set exactly when no two literals denote one element |
| NftPolicy.ExactIsAccepted | package/ils-gateway/root/usr/bin/locspoofctl:616-630 | the policy's set passes verification exactly when no two literals denote one element |
| NftPolicy.AliasesHideStaleElements | package/ils-gateway/root/usr/bin/locspoofctl:616-630 | two spellings of one IPv6 address let a stale element pass: a concrete policy and set |
| NftPolicy.ValidationGivesDistinct | package/ils-gateway/root/usr/bin/locspoofctl:238-272 | validation makes MACs, IPv4 addresses and interfaces distinct as elements, IPv6 addresses exactly when none is spelled in two ways |
| NftPolicy.AcceptedPolicies | package/ils-gateway/root/usr/bin/locspoofctl:238-272 | which policies validate_inputs accepts: well-formed entries, no MAC and no interface twice in any spelling, no address twice in one |
| NftPolicy.ExpectedIs | package/ils-gateway/root/usr/bin/locspoofctl:281-311 | what belongs in each set: every MAC, every IPv4 and every IPv6 address on its side, every configured interface or br-lan alone |
| NftPolicy.InForceIsExact | package/ils-gateway/root/usr/bin/locspoofctl:281-311 | sets are exact if and only if they hold just that |
| NftPolicy.RedirectOrBlock | package/ils-gateway/root/usr/bin/locspoofctl:298-306 | sets within one policy never both redirect and block IPv6 |
| NftPolicy.AcceptedWithinIsExact | package/ils-gateway/root/usr/bin/locspoofctl:616-660 | within one policy, passing verification means being exact, and implies that no literals alias |
| NftPolicy.ClearCanBeTrusted | package/ils-gateway/root/usr/bin/locspoofctl:198-211 | of the state in which clear leaves the sets: a zero status means empty sets exactly when no set with elements had both its flush and its listing fail |
| Targets.AllAllowed | package/ils-gateway/root/usr/bin/locspoofctl:411-421 | the first host loop passes exactly when every host is on the list |
| Targets.SortAnswer | package/ils-gateway/root/usr/bin/locspoofctl:425-435 | a host is accepted exactly when it has addresses and all are well-formed; they are split by family, in order |
| Targets.CollectTargets | package/ils-gateway/root/usr/bin/locspoofctl:410-442 | succeeds exactly when hosts are configured, all are allowed and each resolves; the two lists are then the union of all answers |
| Chronicle.FreshTableIs | package/ils-gateway/root/etc/nftables.d/30-ios-location-spoofer.nft:1-60 | the table after a firewall reload has every set, no device element and the default interface |
| Chronicle.GuardedExactly | package/ils-gateway/root/usr/bin/locspoofctl:286-310 | while a device is in the sets, the interface set is exactly the policy's if and only if no reload of the firewall came since it was flushed, or one that came when only the default interface had been written, which is configured |
| Chronicle.ReloadOpensDefault | package/ils-gateway/root/usr/bin/locspoofctl:286-301 | a concrete policy whose device is intercepted on the default interface after a reload between the interface loop and the MAC loop |
| Chronicle.GoesKeeps | package/ils-gateway/root/usr/bin/locspoofctl:198-311 | what others do between two commands never puts a device into a set and loses no set |
| ApplySteps.MacStep | package/ils-gateway/root/usr/bin/locspoofctl:295-301 | each MAC joins the MAC set and the IPv6 set of its side, on top of what was there |
| ApplySteps.IpStep | package/ils-gateway/root/usr/bin/locspoofctl:302-310 | each address joins the one set of its family and side, on top of what was there |
| ApplySteps.LeftoverDecides | package/ils-gateway/root/usr/bin/locspoofctl:274-311 | the policy on top of what clear left is within the policy exactly when the leftover is, and then exact |
| ApplySteps.MixedWhenListingLies | package/ils-gateway/root/usr/bin/locspoofctl:198-311 | a concrete set and policy: clear returns 0, and whatever apply then leaves is within neither policy |
| ApplySteps.ExactVerifies | package/ils-gateway/root/usr/bin/locspoofctl:632-660 | what apply is to leave passes verification, unless two literals are one element |
| ApplySteps.VerifiedIsExact | package/ils-gateway/root/usr/bin/locspoofctl:632-660 | what passes verification is the policy, unless two literals are one element |
| ApplySteps.VerifiesExactly | package/ils-gateway/root/usr/bin/locspoofctl:616-676 | for a policy that names no address in two ways, verify passes if and only if each of the seven sets holds exactly what is configured |
| Ctl.EffectiveMeans | package/ils-gateway/root/usr/bin/locspoofctl:632-716 | when status reports effective, and only then: every marker, a daemon that is ready and answers, a policy that passes, targets of at most the default 300 seconds |
| Ctl.FreshMeans | package/ils-gateway/root/usr/bin/locspoofctl:341-360 | when no refresh is due, and only then |
| Ctl.EffectiveIsExact | package/ils-gateway/root/usr/bin/locspoofctl:632-716 | effective_enabled means, unless IPv6 literals alias, that each device set holds exactly the configured MACs and addresses of its side and the interface set every configured interface, or br-lan alone |
| Ctl.Router.constructor | package/ils-gateway/root/etc/nftables.d/30-ios-location-spoofer.nft:1-60 | a router comes up with empty device sets, whatever markers were left |
| Ctl.Router.Between | package/ils-gateway/root/usr/bin/locspoofctl:198-311 | before every command others may reload the firewall or targets time out, any number of times, and the process may be killed |
| Ctl.Router.Reload | package/ils-gateway/root/etc/nftables.d/30-ios-location-spoofer.nft:1-60 | a reload leaves the fresh table |
| Ctl.Router.Expire | package/ils-gateway/root/etc/nftables.d/30-ios-location-spoofer.nft:47-56 | a timeout takes addresses from the target sets and nothing else |
| Ctl.Router.Flush | package/ils-gateway/root/usr/bin/locspoofctl:203-205 | a flush empties one set, as it finds it, or leaves everything as it was |
| Ctl.Router.Add | package/ils-gateway/root/usr/bin/locspoofctl:297-306 | an element is added to one device set as it finds it, or nothing happens; it must be the policy's, and the interfaces written |
| Ctl.Router.FlushLan | package/ils-gateway/root/usr/bin/locspoofctl:288-288 | the interface set is flushed only while no device is in the sets |
| Ctl.Router.AddLan | package/ils-gateway/root/usr/bin/locspoofctl:291-291 | the next interface is added only while no device is in the sets |
| Ctl.Router.ReplaceTargets | package/ils-gateway/root/usr/bin/locspoofctl:448-463 | the batch replaces both target sets or neither |
| Ctl.Router.WriteMarker | package/ils-gateway/root/usr/bin/locspoofctl:41-49 | a marker write is atomic and may fail |
| Ctl.Router.RemoveMarker | package/ils-gateway/root/usr/bin/locspoofctl:60-63 | a marker removal may fail |
| Ctl.Router.FlushOrAbsent | package/ils-gateway/root/usr/bin/locspoofctl:199-209 | a failed flush is an error unless the set is then listed as absent |
| Ctl.Router.Clear | package/ils-gateway/root/usr/bin/locspoofctl:198-211 | undisturbed, the sets are exactly those of AfterClear for the flushes that failed, and the status is zero exactly when every one of them was also listed as absent; in any case they are empty when no flush fails, and a zero status with elements left needs a failed flush and a failed listing |
| Ctl.Router.ClearFor | package/ils-gateway/root/usr/bin/locspoofctl:285-285 | the policy starts on tainted sets exactly when a set with elements was neither flushed nor listed |
| Ctl.Router.ApplyLan | package/ils-gateway/root/usr/bin/locspoofctl:286-294 | the interface set becomes exactly the configured one, tracked through any reload meanwhile, and changes only while no device is in any set |
| Ctl.Router.AddMac | package/ils-gateway/root/usr/bin/locspoofctl:295-298 | a MAC goes into the MAC set and into the IPv6 set of its side, or the call fails |
| Ctl.Router.AddIp | package/ils-gateway/root/usr/bin/locspoofctl:302-307 | an address goes into the one set of its family and side, or the call fails |
| Ctl.Router.ApplyMacs | package/ils-gateway/root/usr/bin/locspoofctl:295-301 | undisturbed, the MAC part of the policy is added to what was there, on the redirect or the block side |
| Ctl.Router.ApplyIps | package/ils-gateway/root/usr/bin/locspoofctl:302-310 | undisturbed, the address part is added to it |
| Ctl.Router.ApplyInner | package/ils-gateway/root/usr/bin/locspoofctl:274-311 | undisturbed, a success leaves exactly the policy that was read on top of what clear could not remove, and so, on untainted sets, exactly every configured interface, MAC and address in the sets of their side; an invalid or empty policy fails; with no fault a valid one succeeds |
| Ctl.Router.VerifyExactSet | package/ils-gateway/root/usr/bin/locspoofctl:616-630 | undisturbed, accepts only sets with the right cardinality and all literals, and with no failing query all of those |
| Ctl.Router.SetsReady | package/ils-gateway/root/usr/bin/locspoofctl:319-325 | true only if every set exists, and false only if one is missing or a query failed |
| Ctl.Router.TargetsReady | package/ils-gateway/root/usr/bin/locspoofctl:333-339 | undisturbed, true only if both target sets exist and one has elements; false only otherwise or after a failed query |
| Ctl.Router.Verify | package/ils-gateway/root/usr/bin/locspoofctl:632-660 | undisturbed, passes only when all sets are there, targets are populated, the policy is valid and every compared set is accepted; with no failing query it passes then |
| Ctl.Router.ApplyAndVerify | package/ils-gateway/root/usr/bin/locspoofctl:663-663 | undisturbed, success means verified and, on untainted sets, exact; with no fault only an invalid, empty or aliased policy or missing sets make it fail |
| Ctl.Router.GiveUp | package/ils-gateway/root/usr/bin/locspoofctl:671-675 | the failure path empties the device sets and removes nft_applied as far as flushes and removals go through |
| Ctl.Router.ApplyAndMark | package/ils-gateway/root/usr/bin/locspoofctl:662-676 | success means marked and, undisturbed, the policy in force and verified; failure means no interception and no mark, up to lost flushes and removals |
| Ctl.Router.FailRefresh | package/ils-gateway/root/usr/bin/locspoofctl:401-409 | both markers are removed and the device sets emptied, the target sets kept |
| Ctl.Router.RecordRefresh | package/ils-gateway/root/usr/bin/locspoofctl:467-470 | the family markers, the time and the success marker are written as the batch had it |
| Ctl.Router.InstallTargets | package/ils-gateway/root/usr/bin/locspoofctl:443-470 | undisturbed, either the target sets are replaced, checked and recorded, or the call fails |
| Ctl.Router.RefreshTargets | package/ils-gateway/root/usr/bin/locspoofctl:393-473 | undisturbed, all or nothing: on success the target sets are exactly the union of the answers and recorded as such, on failure wholly old or wholly new; after a failure interception is off up to lost flushes and removals |
| Ctl.Router.FamilyReady | package/ils-gateway/root/usr/bin/locspoofctl:352-353 | a family that was populated before must be populated still |
| Ctl.Router.TargetRefreshDue | package/ils-gateway/root/usr/bin/locspoofctl:341-356 | undisturbed, not due only if the refresh is recorded, younger than the interval, and no family has gone; due only if one of these fails or a query failed |
| Ctl.Router.BypassOn | package/ils-gateway/root/usr/bin/locspoofctl:723-730 | success means the bypass marker is written, nft_applied gone and the device sets empty, unless a flush and a query failed |
| Ctl.Router.BypassOff | package/ils-gateway/root/usr/bin/locspoofctl:731-736 | success removes the bypass and re-applies exactly when enabled and ready |
| Watchdog.CtlTargetRefreshDue | package/ils-gateway/root/usr/bin/locspoof-watchdog:90-90 | a killed query reads as nothing due; otherwise nothing due means a recent refresh and, undisturbed, fresh targets |
| Watchdog.ClearSets | package/ils-gateway/root/usr/bin/locspoof-watchdog:35-40 | the device sets are emptied and nft_applied removed, up to lost flushes and a lost removal |
| Watchdog.ReloadFw4IfNeeded | package/ils-gateway/root/usr/bin/locspoof-watchdog:76-84 | success means that every set exists; it fails only when a command or query does |
| Watchdog.RefreshTargetsIfNeeded | package/ils-gateway/root/usr/bin/locspoof-watchdog:86-93 | success means that a refresh is on record that is young enough, unless a process was killed, and undisturbed that the targets are populated |
| Watchdog.KeepApplied | package/ils-gateway/root/usr/bin/locspoof-watchdog:115-129 | success means marked, and undisturbed verified unless a marker could not be removed; failure means unmarked and, up to lost flushes, empty |
| Watchdog.RunOnce | package/ils-gateway/root/usr/bin/locspoof-watchdog:95-131 | whatever happened, a success without bypass is effective_enabled of status exactly when verification passes and the targets are current; undisturbed and with markers removable, effective_enabled is success without bypass and with current targets, and with no process killed success without bypass, or, while not both a flush and a removal fail, success without bypass with a policy that passes; a failing or bypassed tick leaves nothing intercepted up to lost flushes; with no fault it succeeds for every valid policy |
| Watchdog.KilledQueryIsSuccess | package/ils-gateway/root/usr/bin/locspoof-watchdog:86-93 | a state in which a tick succeeds because the query for stale targets was killed, and status does not report effective |
| Watchdog.StuckMarkerIsSuccess | package/ils-gateway/root/usr/bin/locspoof-watchdog:115-117 | a state in which a tick succeeds over emptied sets because nft_applied could not be removed |
| Watchdog.NothingTakenDown | package/ils-gateway/root/usr/bin/locspoof-watchdog:115-131 | a state in which a tick fails and status reports effective, because flush and removal both failed |
| Watchdog.CalmAgrees | package/ils-gateway/root/usr/bin/locspoof-watchdog:95-131 | that agreement holds from the start of a round on |
| Watchdog.ProcessRequests | package/ils-gateway/root/usr/bin/locspoof-watchdog:20-33 | a bypass request is consumed only with the bypass marker in place and interception off; otherwise it stays |
| Watchdog.Tick | package/ils-gateway/root/usr/bin/locspoof-watchdog:147-152 | the same for a whole round from any state; a pending request that can be served ends in bypass |
| Watchdog.WaitForDaemon | package/ils-gateway/root/usr/bin/locspoof-watchdog:66-74 | success means a healthy daemon at the last poll; failure means 20 polls |
| Watchdog.Activate | package/ils-gateway/root/usr/bin/locspoof-watchdog:133-140 | the enabled marker stays only behind a successful first tick, with the same agreement; otherwise neither marker nor interception is left |
| Watchdog.ServiceReload | package/ils-gateway/root/usr/bin/locspoof-service:8-28 | a reload switched on applies whatever the bypass marker says; switched off it clears and keeps the markers |
| Watchdog.SyncMonitor | package/ils-gateway/root/usr/bin/locspoofctl:213-236 | only the monitored sets change, and an undisturbed success leaves exactly the monitored elements in them |
| Watchdog.Step | package/ils-gateway/root/usr/bin/locspoof-watchdog:147-152 | every event keeps what holds of every moment |
| Watchdog.Run | package/ils-gateway/root/usr/bin/locspoof-watchdog:142-152 | so does every run of ticks, commands and events of the environment, with any fault in any of them and reloads and timeouts before any single command |
| Watchdog.NeverMixed | package/ils-gateway/root/usr/bin/locspoofctl:198-311 | at every moment of every run at which the sets are not tainted: they are part of one single policy that the configuration has held, never a mix; IPv6 is never both redirected and blocked; and while they hold a device the interface set is exactly that policy's, if and only if no reload came since it was written, or one that changed nothing |
| Watchdog.FromBoot | package/ils-gateway/root/usr/bin/locspoof-watchdog:142-152 | the same for every run from power-up on |
| Watchdog.Recover | package/ils-gateway/root/usr/bin/locspoof-watchdog:95-152 | after any run with any faults, one round in which nothing fails and nobody interferes puts exactly the configured policy into force |
| Devices.CheckMacs | internal/config/config.go:288-315 | the MAC loop accepts exactly lists that parse and whose addresses differ |
| Devices.MappedIs | internal/config/config.go:316-339 | exactly the addresses ::ffff:a.b.c.d are those of IPv4 |
| Devices.CheckSingles | internal/config/config.go:316-328 | the two single addresses need no comparison with each other |
| Devices.CheckIps | internal/config/config.go:316-339 | the address loop accepts exactly lists that parse and whose canonical addresses differ, an IPv4-mapped address counting as IPv4 |
| Devices.Validate | internal/config/config.go:288-342 | the device checks accept exactly such configurations, and with the service enabled only ones that name a device |
| Devices.CheckRest | internal/config/config.go:329-339 | the loop over the list, against the single addresses |
| Devices.DaemonRefusesAliases | internal/config/config.go:288-342 | of the policies that the scripts accept and whose texts the daemon can read, its device checks refuse exactly those with aliased IPv6 literals, an IPv4 device named again as a mapped address, or a single address under the option of the other family |
| Devices.EffectiveWithDaemonIsExact | package/ils-gateway/root/usr/bin/locspoofctl:632-716 | with a daemon that has accepted the same devices, effective_enabled means that every device set is exactly the policy |
| Budget.ReservationIsExact | internal/proxy/mitm.go:714-719 | the reservation is four times the limit plus one, and refused exactly when that leaves the 64-bit range |
| Budget.UsableBodyLimits | internal/config/config.go:360-372 | which limits can be accepted at all: max_body_bytes of 64 MiB passes its own check and never the whole |
| Budget.ByteBudget.Try | internal/proxy/mitm.go:122-136 | a request takes its bytes as soon as they are there, even past the deadline, and gives up only past it |
| Budget.ByteBudget.Release | internal/proxy/mitm.go:138-149 | with what is out accounted for, the clamp changes nothing |
| Budget.DataPlane.SetLimits | internal/proxy/mitm.go:267-285 | an accepted configuration gets a budget that every request fits into, and work slots cut only as far as the bodies need |
| Budget.DataPlane.TakeSlot | internal/proxy/mitm.go:420-426 | a request past the slot cap is answered at once |
| Budget.DataPlane.Reserve | internal/proxy/mitm.go:427-443 | a request that could never fit is answered, every other one takes its bytes, waits or times out |
| Budget.DataPlane.LooksMean | internal/proxy/mitm.go:427-443 | what a request gets at its first look, from the limit, the capacity, what is there and the deadline |
| Budget.DataPlane.Wake | internal/proxy/mitm.go:122-134 | the same look after every waking |
| Budget.DataPlane.Allocate | internal/proxy/mitm.go:687-712 | a request takes the buffers that readBounded and gzipBounded make, whose sizes are theirs |
| Budget.DataPlane.Finish | internal/proxy/mitm.go:422-443 | reservation and slot go back whole and once, whichever way the handler returns |
| Budget.DataPlane.Bounded | internal/proxy/mitm.go:104-149 | in every reachable state the buffers of all requests are within the reservations and those within the capacity, and the slots within the cap |
| Budget.DataPlane.NobodyIsStuck | internal/proxy/mitm.go:115-136 | when nobody holds bytes the next look succeeds |
| Budget.Run | internal/proxy/mitm.go:419-443 | every interleaving of acquire, wait, timeout and release conserves: available plus reserved is the capacity |
| Budget.NothingLeaks | internal/proxy/mitm.go:419-443 | when all requests are answered the whole budget and all slots are back |
| Slots.Server.Acquire | internal/proxy/transparent_server.go:102-107 | a connection past the cap is turned away |
| Slots.Server.Store | internal/proxy/transparent_server.go:121-122 | the release closure is stored before the connection is offered |
| Slots.Server.LoadAndDelete | internal/proxy/mitm.go:184-191 | whoever finds the closure is the only one to call it |
| Slots.Server.ReceiveDoesNotBlock | internal/proxy/transparent_server.go:97-101 | a connection that holds a slot leaves something in the channel to receive |
| Slots.Server.Release | internal/proxy/transparent_server.go:96-101 | the slot is received back, without blocking, the first and only time |
| Slots.Server.AllSlotsReturn | internal/proxy/transparent_server.go:95-135 | with every connection gone or turned away every slot is free, one receive for each that had one |
| Slots.Server.FiveActions | internal/proxy/transparent_server.go:95-135 | in every reachable state no connection has taken more than five actions, and one that has taken five has left |
| Slots.Step | internal/proxy/transparent_server.go:95-135 | an action that is a connection's next one brings it to the state it leads to, strictly closer to having left, and no other connection; any other action moves none |
| Slots.NobodyIsStuck | internal/proxy/transparent_server.go:95-135 | a connection that has not left always has a next action |
| Slots.Exhaust | internal/proxy/transparent_server.go:95-135 | under every schedule a connection takes at most as many actions as its distance, and has left when it has taken as many |
| Slots.FiveAreNeeded | internal/proxy/transparent_server.go:95-135 | an intercepted connection takes five |
| Slots.Run | internal/proxy/transparent_server.go:95-135 | in every run the slots in use are exactly the connections routing, relaying, queued, served or about to release, never more than the cap |
| BoundedRead.ReadBounded | internal/proxy/mitm.go:684-712 | for any cut of the stream: a stream that fits is returned whole, a longer one is read for exactly limit+1 bytes with the reader right after them; which of the two depends on the length alone |
| BoundedRead.Copy | internal/proxy/mitm.go:474-478 | everything left in the reader reaches the client unless a read or write fails, and then a prefix of it |
| BoundedRead.GunzipBoundedBody | internal/proxy/mitm.go:655-666 | a decoded body is returned exactly when the stream is intact and within the limit |
| BoundedRead.BoundedBuffer.Write | internal/proxy/mitm.go:721-732 | a write that would exceed the limit is refused whole |
| BoundedRead.GzipBoundedBody | internal/proxy/mitm.go:668-682 | the encoded body is returned exactly when input and output are within the limit |
| BoundedRead.GzipRoundTrip | internal/proxy/mitm.go:655-682 | what is sent compressed is read back as what was compressed |
| Outcome.PlainMeans | internal/proxy/mitm.go:655-666 | what can be read of a body, by encoding and limit |
| Outcome.EncodedMeans | internal/proxy/mitm.go:668-682 | what can be sent of a result, by encoding and limit |
| Outcome.JudgeMeans | internal/proxy/mitm.go:516-619 | the verdict on a body that can be read, for either kind of callback: declined, unchanged, too long, or replaced |
| Outcome.PagesAre | internal/proxy/mitm.go:444-496 | the four error pages with their codes |
| Outcome.DecideIdentity | internal/proxy/mitm.go:524-563 | the nested branches for a plain body decide as the verdict does, with exactly one record for a body that is kept |
| Outcome.DecideGzip | internal/proxy/mitm.go:564-611 | the same for a gzip body |
| Outcome.Decide | internal/proxy/mitm.go:516-619 | each bounded response is exactly one of replaced, unsupported, failed, undecodable or unencodable |
| Outcome.ReplacedIsRewritten | internal/proxy/mitm.go:516-619 | a client that undoes the encoding reads what the callback made of the decoded upstream body |
| Outcome.Respond | internal/proxy/mitm.go:616-634 | Modified is recorded only after the whole rewritten body was written, PassedThrough otherwise |
| Outcome.StreamOn | internal/proxy/mitm.go:471-488 | a response over the limit reaches the client whole unless a write or read fails |
| Outcome.Fetch | internal/proxy/mitm.go:468-635 | the client receives the reply under the upstream's status or a prefix of it, or the 502 page, if every read makes progress exactly when a body within the limit cannot be read to its end; the length test after a successful read cannot succeed |
| Outcome.Handle | internal/proxy/mitm.go:444-635 | the same for a whole request, with 421 and 502 exactly for the requests that get them, and byte for byte the upstream body when it is not modified; its records start with the count of the request and end with at most one outcome |
| Outcome.EndsOnce | internal/proxy/mitm.go:448-634 | in any part of such a trail there is at most one outcome, only after the count, and Modified only after the rewritten body was written to its end |
| Outcome.Metrics.Add | internal/health/health.go:85-148 | each record moves its own counter by one and no other |
| Outcome.LedgerAddsUp | internal/proxy/mitm.go:448-634 | modified plus passed through never exceeds the requests counted, and modified never the rewritten bodies written |
| Outcome.Run | internal/proxy/mitm.go:419-635 | so at every moment of every interleaving of any number of requests |
| Gateway.ProductionAnswers | cmd/locspoofd/runtime.go:41-54 | the production callback answers every body as the rewriter does |
| Gateway.ModifiedCarriesProfile | cmd/locspoofd/runtime.go:41-54 | from end to end, for every such callback: a response counted as modified is, once decoded, the upstream message in the same envelope with the profile in every location and nothing else changed |
| Gateway.ReasonsMean | cmd/locspoofd/runtime.go:41-54 | what each of the four reasons stands for, whatever the encoding, by an exact condition on what the rewriter says of the decoded body |
| Profiles.ActiveTexts | internal/config/config.go:128-140 | exactly the twelve texts of strconv.ParseBool are read, and exactly six of them switch a profile on |
| Profiles.Select | internal/config/config.go:219-263 | picks the unique active profile, else the only one with coordinates, else the last "location" with coordinates, else none, and never one that is incomplete or invalid; which error is reported, exactly |
| Profiles.InForceIsUnique | internal/config/config.go:244-263 | at most one profile is in force |
| Profiles.Uci.SetProfilesActive | package/ils-gateway/root/usr/bin/locspoof-profile:29-33 | the wanted section is switched on and every other one off |
| Profiles.Uci.PrintActive | package/ils-gateway/root/usr/bin/locspoof-profile:22-27 | finds exactly the sections whose option is spelled 1 |
| Profiles.Uci.Restore | package/ils-gateway/root/usr/bin/locspoof-profile:48-53 | switches exactly the given sections on |
| Profiles.Uci.Activate | package/ils-gateway/root/usr/bin/locspoof-profile:35-57 | success leaves exactly the wanted section on, committed and loaded; a refused reload leaves exactly the sections that were spelled 1; any other failure touches nothing |
| Profiles.ActivatedIsSelected | package/ils-gateway/root/usr/bin/locspoof-profile:35-47 | after a success the selection cannot report multiple active profiles, and the wanted one is in force |
| Profiles.RollbackIsExact | package/ils-gateway/root/usr/bin/locspoof-profile:42-56 | the active profiles are restored if and only if every one of them was spelled 1 |
| Profiles.RollbackLosesOtherSpellings | package/ils-gateway/root/usr/bin/locspoof-profile:22-27 | a concrete configuration whose active profile is lost |

## Left out

- Jitter and rounding of the profile, and Profile.Validate: random and floating point; the model starts from the rounded 64-bit values.
- TLS, HTTP transport, X.509, OpenSSL and gzip itself: library code; gzip is an arbitrary pair of functions, and only where a theorem needs it is decompression assumed to undo compression.
- The reading of UCI, and the text of addresses, MACs and interface names: a literal is an address together with a spelling, and the syntax check is a flag on it.
- Where daemon and scripts read the devices differently: the daemon keeps the last of device_ip and device_ipv4 and takes other spellings of an enabled device section; Devices compares the two on configurations that both read alike.
- set_elements_json, which parses the output of nft: sets are modelled as sets of canonical elements, and a listing as a query that may fail.
- The six monitored and online sets stand as one set name: they are not part of the policy. A flush of one of them leaves any part of the whole.
- IPv4 and IPv6 intervals in device sets: an element is an address.
- The DNS helper, its deadline and its output format: a resolver is any function from hosts to addresses.
- Locking between scripts: ctl processes are serialised and each reads one UCI snapshot, although the scripts take no lock.
- Death of the watchdog itself, and procd restarting it: a run may start the watchdog again at any point.
- Permissions of the state directory, temporary files and renames: a marker write is atomic and may fail.
- A clock that runs backwards: time only advances, and a failing `date` is not modelled.
- Time that passes within one ctl command or one round of the watchdog: a round sees one clock value, one health state and one configuration; reloads of the firewall and timeouts of targets do happen in between.
- The destination allowlist of Classify: its only caller passes the wildcard. Normalisation of names is any predicate on the raw name.
- When deadlines expire: a read may report an error at any point and go on later, and a dial may fail.
- What the kernel does with bytes it has taken: in Relay a side has received what a write to its connection accepted.
- A fair scheduler: Relay says what a run may and must deliver, not that a copy goes on.
- Headers of replies: copyHeaders and the Content-Length of streamed replies are not modelled; status codes, bodies and the pages of http.Error are.
- The SetLastError text, activity files and the per-client times of the counters.
- Hot reload of the profile during a request: the callback is one function per request.
- A SetLimits call while requests are served: the daemon calls it before it listens.
- A failing `uci set` or `uci commit` in the activation script, and changes to the configuration by others while it runs.
- Two `option active` lines in one section: UCI writes one.
- LuCI, translations, packaging, migration, the control socket, ARP lookup and the SOCKS5 handshake: short fixed formats that would add only easy members.
- Ctl.Router.Clear: does not promise that a zero status means empty sets, because that is false when a flush and the listing after it both fail; NftPolicy.ClearCanBeTrusted gives the exact condition.
- Ctl.Router.Verify: does not promise exactness for aliased IPv6 literals, because it does not hold for them; NftPolicy.AcceptedIsExact gives the exact condition.
- Watchdog.ServiceReload: does not promise empty sets under bypass, because the script applies without looking at the bypass marker; the next tick repairs it.
- Watchdog.ProcessRequests: does not promise that the sets stay empty to the end of the round after a failed request, because the round goes on and may apply the policy.
- WLocGrowth.MessageGrowth: requires 20 times the length to be below 2^64, which every body under the 4 MiB limit is.
