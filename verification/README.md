# A verified model of the DHCP relay agent

The project models four parts of the relay agent and proves what they do over whole runs, whole
pipelines and whole messages. Run `dafny verify dfyconfig.toml` to check all of it.

| file | what it holds |
|---|---|
| `Bytes.dfy` | octets, addresses, 16-bit big-endian numbers |
| `RelayFwd.dfy` | the DHCPv6 relay codec: option scan, nested Relay-replies, the 16-bit length |
| `SmfDpdOption.dfy`, `DpdKeys.dfy` | the SMF_DPD option and the packet identifiers made from it |
| `DpdCache.dfy`, `DpdHistory.dfy`, `DpdInterleaving.dfy` | the duplicate cache, sequential timed runs, concurrent callers |
| `SmfEngine.dfy`, `SmfFlood.dfy` | forwarding rules, TTL decrement, floods in a network of engines |
| `Vss.dfy` | VSS sub-options and the walk over raw sub-options |
| `V4Message.dfy`, `V4Pipeline.dfy`, `V4Relay.dfy` | Option 82, stages and pipelines, relay chains, request with echo and reply |
| `RelayStats.dfy` | DHCPv4 handlers, counters, interleaved tasks, snapshots |

Code that updates state is written as classes and methods (`DpdCache`, `PipelineContext`,
`Pipeline`, `RelayStats`, the codec loops) and proved equal to functions; the lemmas are about
those functions.

Where the code and its documentation differ the model follows the code, and says exactly when they agree:

- Server replies must echo Option 82 exactly, says the documentation. The echo check does decide
  equality (`EchoDecidesEquality`, `RequestEchoReply`), so a later VSS relay can make a true echo fail
  (`ChainEchoAcceptedIff`), but the task loop takes the expected value from the reply itself and
  never refuses one (`LiveReplyNeverRefuses`).
- Reforwarded packets are not to be modified. With VSS on, their agent information is rewritten;
  `ReforwardedUnchangedIff` gives the exact condition for one relay, `ChainLeavesEqualIff` for a chain
  with any VSS settings. Option 82 is indeed never added to them.
- A trusted circuit's packet passes validation and then errors when Option 82 is enabled, and an
  absent circuit and remote id have no defaults (`RequestOutcome`).
- Every error of the client pipeline is counted as a spoof; `SpoofCountedIff` says which are one.
- The engine does not consult the duplicate cache, so only the TTL stops a flood, at the full
  cost (`FloodTerminates`, `FullFloodCost`, `FullFloodHappens`).
- A lookup and its insert are two steps, so concurrent first calls can both be accepted and lower
  the cached TTL (`RaceLowersTtl`); accepts ascend exactly as `AcceptsAscendIff` and, from a state,
  `AscendsInEveryRunIff` say. A call is dated by its entry, so a slow caller can date an entry back and
  have a TTL accepted twice within the window (`LateCallerBreaksWindow`); `WindowSuppressionIff` says
  which callers in flight can, `StaysIff` and `YoungInEveryRunIff` what becomes of presence and age.
- The VSS length octet wraps for info of 255 octets or more, so that a control is seen or missed
  (`LongInfoMisread`, `LongInfoHidesControl`); `VssAloneMisreadIff` and `SentPairRecognisedIff` say when.
- An interface bound to the wildcard address, or to an IPv6 literal, is 0.0.0.0 to the pipeline, and
  the next relay takes itself for the first; `NextRelayStrandsIff` and `UnaddressedChainIff` say which
  packets still pass.
- The fields of a snapshot are loaded one by one and need not fit each other (`TornSnapshot`,
  `TornStripped`); `SnapshotCoherentIff` says when they do.
- Five of the nine counters are never written (`CountersConserved`).
- A loop of relays is stopped only by one that owns the giaddr or cannot encode its VSS: nothing
  counts hops, so any other goes on for ever (`LaterLoopIsEndlessIff`).

## Model

| member | source | states |
|---|---|---|
| RelayFwd.ExtractRelayMsg | src/dhcp/v6/relay_fwd.rs:91-121 | the indexed loop stays in range and returns what the scan specification returns |
| RelayFwd.Extract | src/dhcp/v6/relay_fwd.rs:91-121 | a found message is at least an option header shorter than the area, which bounds the recursion |
| RelayFwd.ExtractIsTheTlvReading | src/dhcp/v6/relay_fwd.rs:91-121 | on every input: success with v iff the area is well-formed options other than 9 followed by a complete option 9 holding v; each error iff its own reading |
| RelayFwd.UnwrapAnyDepth | src/dhcp/v6/relay_fwd.rs:62-88 | any nesting of valid Relay-reply layers around a core not starting with 13 decapsulates to the core |
| RelayFwd.DecapsulateIsUnwrap | src/dhcp/v6/relay_fwd.rs:62-88 | decapsulation succeeds with r iff the input is such a nesting around r |
| RelayFwd.OnlyRepliesUnwrap | src/dhcp/v6/relay_fwd.rs:62-88 | under 34 octets or with a first octet other than 13 a message is refused, each with its error; what comes out never starts with 13 |
| RelayFwd.ReplyInOctets | src/dhcp/v6/relay_fwd.rs:62-121 | behind any 34-octet header of type 13 and any other options, the octets 0, 9, a big-endian length and a value give the value |
| RelayFwd.DecapsulateSound | src/dhcp/v6/relay_fwd.rs:62-88 | a success is a contiguous slice of the input, at least 38 octets shorter per layer, so depth is at most length / 38 |
| RelayFwd.NestingUnique | src/dhcp/v6/relay_fwd.rs:62-121 | a message has at most one reading as nested layers around a non-reply core |
| RelayFwd.Encapsulate | src/dhcp/v6/relay_fwd.rs:32-56 | the pushed buffer is type 12, hop count 0, link and peer address, option 9 with the low 16 bits of the length, the message |
| RelayFwd.ForwardFields | src/dhcp/v6/relay_fwd.rs:32-56 | each field stands at its wire offset, octet by octet, option code and length big-endian, the message after the 38 octets of headers |
| RelayFwd.EncapsulateThenDecapsulate | src/dhcp/v6/relay_fwd.rs:32-88 | for every length, the first length mod 65536 octets come back (unwrapped further if they are a reply) |
| RelayFwd.RoundTripIdentityIff | src/dhcp/v6/relay_fwd.rs:32-88 | the round trip returns the message iff it has at most 65535 octets and is not a reply |
| SmfDpdOption.Encode | src/smf/dpd_option.rs:41-70 | the pushed octets are the option's encoding, non-canonical fields included |
| SmfDpdOption.DecodeEncodeIff | src/smf/dpd_option.rs:41-110 | an option survives encode then decode iff it is canonical |
| SmfDpdOption.EncodeDecode | src/smf/dpd_option.rs:41-110 | decode accepts iff an octet is left after the tagger, and re-encoding gives the accepted octets back |
| SmfDpdOption.LengthOctetExactIff | src/smf/dpd_option.rs:44-52 | for every option the length octet is exact iff the tagger has the stated length and the data at most 255 octets |
| SmfDpdOption.EncodingFields | src/smf/dpd_option.rs:41-70 | type octet 8, length, flags, tagger and identifier each at its wire offset |
| SmfDpdOption.EncodingInjective | src/smf/dpd_option.rs:41-70 | distinct canonical options have distinct encodings |
| SmfDpdOption.BitOpsAreDigits | src/smf/dpd_option.rs:55-61 | the flags octet of the model is the one the source's shift, mask and or make from the same octets |
| SmfDpdOption.BitFieldsAreDigits | src/smf/dpd_option.rs:79-83 | the three fields of the model are those the source's masks and shifts take from the same octet |
| DpdKeys.PackingIsBase256 | src/smf/dpd_ipv6.rs:46-51 | the packed number is the base-256 value of the first eight octets padded on the right, below 2^64, and determines them |
| DpdKeys.OptionKeysCollideIff | src/smf/dpd_ipv6.rs:12-19 | two options share a key iff addresses and padded eight-octet prefixes agree, also after encode and decode |
| DpdKeys.ShortIdentifiersCollideIff | src/smf/dpd_ipv6.rs:46-51 | identifiers of at most eight octets collide iff one is the other with trailing zeros |
| DpdKeys.RawAndOptionKeysAgreeIff | src/smf/dpd_ipv6.rs:12-24 | a 32-bit identifier gives the same key raw and as a four-octet option iff it is zero |
| DpdKeys.HashKeysAgreeIff | src/smf/dpd.rs:112-131 | two packets get the same key from every hash function iff addresses and the first 64 payload octets agree |
| DpdKeys.HashedOctets | src/smf/dpd.rs:112-131 | the hashed octets by position: source, destination, then at most 64 of the payload; the identifier is the low 64 bits of the hash |
| DpdCache.DpdCache.CheckAndInsert | src/smf/dpd.rs:60-84 | verdict and new table are those of the lookup section followed, if it found nothing, by the insert section |
| DpdCache.DpdCache.EvictExpired | src/smf/dpd.rs:87-90 | keeps exactly the entries first seen after now minus the window |
| DpdHistory.ClearStartsAfresh | src/smf/dpd.rs:103-105 | a run after a clear is that of a new cache, whatever came before |
| DpdCache.DpdCache.EvictionTicks | src/smf/dpd.rs:137-153 | any number of ticks without traffic leaves what the last tick alone would; short windows leave all |
| DpdCache.TicksAreQuarterWindows | src/smf/dpd.rs:137-153 | ticks start at once and are a quarter of the window apart to the nanosecond, from four seconds on |
| DpdCache.LaterEvictionSubsumes | src/smf/dpd.rs:87-90 | an eviction followed by a later one equals the later one |
| DpdHistory.VerdictIsRunningMaximum | src/smf/dpd.rs:60-84 | over every run: accept iff the TTL exceeds the largest offered for the key since its last removal, duplicate iff equal, stale iff smaller |
| DpdHistory.CacheRefinesHistory | src/smf/dpd.rs:60-105 | over every run the cache is the call history of each key since its last removal with all forgotten but the largest TTL offered and the time of the last accept |
| DpdHistory.AcceptedTtlsIncrease | src/smf/dpd.rs:60-84 | between removals a key's accepted TTLs strictly increase and number at most 256 |
| DpdHistory.KeysAreIndependent | src/smf/dpd.rs:60-105 | entry and verdict of a key are those of the run with all other keys' calls removed |
| DpdHistory.WindowSuppression | src/smf/dpd.rs:61-90 | whatever evictions run, a call with no larger TTL within the window of an accepted one is not accepted |
| DpdHistory.EvictionExact | src/smf/dpd.rs:87-90 | an eviction keeps a key iff its last accepted call is less than a window old; else the next call is accepted with any TTL |
| DpdHistory.EntryOrigin | src/smf/dpd.rs:60-84 | every entry carries time and TTL of the last accepted call on its key |
| DpdHistory.EntriesStayYoung | src/smf/dpd.rs:137-153 | on the window / 4 schedule every entry is younger than window + window / 4 at every time |
| DpdHistory.MemoryBounded | src/smf/dpd.rs:137-153 | the cache has no more entries than calls accepted in the last window + window / 4 |
| DpdHistory.KeysStayForeverIff | src/smf/dpd.rs:137-153 | every run with the eviction task and no clear keeps exactly the keys it was called with iff the window is under four seconds |
| DpdInterleaving.EntryIsLastAccept | src/smf/dpd.rs:60-84 | in every interleaving a present entry holds TTL and entry time of the most recent accept on its key |
| DpdInterleaving.StaysIff | src/smf/dpd.rs:60-105 | in every interleaving a key stays present iff there is no clear and no eviction a window after the entry of the caller accepted last |
| DpdInterleaving.WindowSuppressionIff | src/smf/dpd.rs:60-90 | only TTLs larger than the entry's are accepted in every run without a clear or an eviction a window past a given time iff each caller in flight on the key, by TTL and entry time, is harmless |
| DpdInterleaving.ClockedSuppressionIff | src/smf/dpd.rs:60-90 | the same iff when every entry and eviction reads a clock that never goes back |
| DpdInterleaving.MemoryBoundedInterleaved | src/smf/dpd.rs:60-90 | after an eviction, however callers interleave, no more entries than recent accepts plus callers in flight that entered a window before it |
| DpdInterleaving.YoungInEveryRunIff | src/smf/dpd.rs:60-90 | every run after an eviction leaves only entries younger than a window before it iff no such caller was in flight |
| DpdInterleaving.LateCallerBreaksWindow | src/smf/dpd.rs:60-90 | a concrete run in which a late caller dates a quiet entry back and a TTL is accepted twice within the window |
| DpdInterleaving.AcceptSetsTtl | src/smf/dpd.rs:64-83 | an accepting step raises a present entry's TTL iff it is not an insert section over as large a TTL |
| DpdInterleaving.AcceptsAscendIff | src/smf/dpd.rs:60-84 | while a key stays present its accepts ascend iff no insert section overwrites as large a TTL |
| DpdInterleaving.QuietKeysAscend | src/smf/dpd.rs:60-84 | once present with no caller between sections, accepts on a key ascend until removal |
| DpdInterleaving.AscendsInEveryRunIff | src/smf/dpd.rs:60-84 | accepts on a present key ascend in every run that keeps it iff no caller on it is between sections |
| DpdInterleaving.RaceLowersTtl | src/smf/dpd.rs:60-84 | a concrete race of two callers in which both are accepted and the TTL drops |
| DpdInterleaving.UninterruptedIsSequential | src/smf/dpd.rs:60-84 | the two sections back to back are the sequential call |
| SmfEngine.DecrementTtl | src/smf/engine.rs:80-88 | writes one less than the passed TTL, never below zero, in place at octet 8 (IPv4) or 7 (IPv6), nothing else and nothing in a short packet |
| SmfEngine.ProcessPacket | src/smf/engine.rs:51-74 | the rules, then the selector, then a copy with the TTL octet changed |
| SmfEngine.ProcessExact | src/smf/engine.rs:51-88 | for any packet and passed TTL: forwarded iff the group is multicast and not link-local, by octets, the TTL exceeds 1, the source is not local and the selector agrees; only the TTL octet differs, one less than passed |
| SmfEngine.ReceiveExact | src/smf/forwarding.rs:16-46 | a received packet is forwarded iff the group is routable, its TTL exceeds 1 and the engine is willing; only the TTL octet drops, by one |
| SmfEngine.ChainExact | src/smf/engine.rs:51-88 | a packet with TTL t passes k engines iff routable, k at most t - 1 and all willing; then only the TTL octet differs, being t - k |
| SmfFlood.FloodTerminates | src/smf/engine.rs:51-88 | every run of any network with bounded fan-out has at most as many deliveries as the work in flight |
| SmfFlood.EveryDeliveryCostsWork | src/smf/engine.rs:51-88 | each delivery strictly lowers that work |
| SmfFlood.FullFloodCost | src/smf/engine.rs:60-73 | with full fan-out and nothing refusing, every run makes exactly that many deliveries: duplicates are not suppressed |
| SmfFlood.FullFloodHappens | src/smf/engine.rs:60-73 | from any flight that nothing refuses there is such a run, and it leaves the network empty |
| SmfFlood.WorkAtMostPower | src/smf/engine.rs:51-88 | the work of a copy is at most (fan-out + 1) to the power of its TTL |
| Vss.EncodeSubOpts | src/dhcp/v4/vss.rs:22-36 | both sub-options, or none exactly for an unknown type, a VPN-ID that is not 7 octets or a global type with info; the length octet is a cast |
| Vss.CheckServerSupport | src/dhcp/v4/vss.rs:42-53 | the loop terminates in range and returns what the walk specification returns |
| Vss.WalkIsTheReading | src/dhcp/v4/vss.rs:42-53 | on every octet string: false iff complete other sub-options are followed by a control's code and length |
| Vss.WalkOfListIff | src/dhcp/v4/vss.rs:42-53 | on any list of sub-options: true iff none has code 152, whatever the values hold |
| Vss.SentPairRecognisedIff | src/dhcp/v4/vss.rs:22-53 | for every info length: the encoded pair after other sub-options is seen to hold the control iff the octets the length octet leaves over, and what follows, read up to a control |
| Vss.VssAloneMisreadIff | src/dhcp/v4/vss.rs:22-53 | for every info length: the VSS sub-option alone is taken for a control iff the octets its length octet leaves over read up to one; never up to 254 octets |
| Vss.LongInfoMisread | src/dhcp/v4/vss.rs:22-53 | a valid info of 255 octets that is taken for a control sub-option |
| Vss.LongInfoHidesControl | src/dhcp/v4/vss.rs:22-53 | a valid info of 255 octets after which the control that follows is missed |
| V4Message.EchoDecidesEquality | src/dhcp/v4/option82.rs:19-34 | for tables keyed by their own codes the comparison of converted lists is equality except for the contents of code 10 |
| V4Message.StripUndoesInsert | src/dhcp/v4/option82.rs:42-87 | strip gives the original message and exactly the inserted identifiers in code order |
| V4Pipeline.PipelineContext.constructor | src/pipeline.rs:36-48 | a fresh context: working buffer equal to the input, no destination, not reforwarded, not trusted |
| V4Pipeline.PipelineContext.ModifyV4 | src/pipeline.rs:52-64 | an undecodable buffer or a failing edit leaves the context as it was; otherwise only the buffer changes |
| V4Pipeline.PipelineContext.Process | src/dhcp/v4/pipeline.rs:19-331 | each stage's verdict and new context are those of its specification |
| V4Pipeline.StageFrame | src/dhcp/v4/pipeline.rs:19-331 | a stage that halts or errs leaves the context as it was; which stages may change buffer, destination, mark or notes; the two guarded stages leave a reforwarded packet alone |
| V4Pipeline.Pipeline.Execute | src/pipeline.rs:113-125 | stages run in order until one halts or errs |
| V4Pipeline.BuildRequest | src/dhcp/v4/pipeline.rs:336-364 | the stages and their order, with the optional ones |
| V4Pipeline.BuildReply | src/dhcp/v4/pipeline.rs:369-386 | the stages and their order, with the optional ones |
| V4Pipeline.RunInPieces | src/pipeline.rs:113-125 | a pipeline is its front part followed, only if that continues, by the rest |
| V4Relay.RequestOutcome | src/dhcp/v4/pipeline.rs:336-364 | which packets are spoofs, dropped, errors or forwarded, each as an iff, and what is forwarded where |
| V4Relay.RequestDecision | src/dhcp/v4/pipeline.rs:336-364 | the verdict on every packet from giaddr, option 82, trust, local addresses, identifiers and VSS type and length alone |
| V4Relay.GarbageOutcome | src/dhcp/v4/pipeline.rs:24-27 | an undecodable packet is a parse error |
| V4Relay.SentTouchesOnly | src/dhcp/v4/pipeline.rs:93-172 | forwarding changes giaddr only from zero and otherwise only option 82; when option 82 is present afterwards |
| V4Relay.FirstRelayTable | src/dhcp/v4/pipeline.rs:93-263 | a first relay sends exactly the configured entries among codes 1, 2, 151 and 152 |
| V4Relay.ReforwardedUnchangedIff | src/dhcp/v4/pipeline.rs:232-263 | a reforwarded packet is left equal iff VSS is off, it has no agent information, or has these VSS entries; Option 82 is never added |
| V4Relay.ChainOfReforwarded | src/dhcp/v4/pipeline.rs:232-263 | a packet with a giaddr passes any chain iff no relay owns the giaddr and every VSS configuration is usable, and differs by the last VSS relay's entries at most |
| V4Relay.ChainLeavesEqualIff | src/dhcp/v4/pipeline.rs:232-263 | it comes out equal iff besides no relay has VSS on, or it has no agent information, or that holds the last VSS relay's entries |
| V4Relay.StampTouchesOnly | src/dhcp/v4/pipeline.rs:247-258 | those entries are codes 151 and 152 of existing agent information, nothing else |
| V4Relay.ChainTouchesOnly | src/dhcp/v4/pipeline.rs:93-263 | no chain changes more than a zero giaddr and option 82, nor removes option 82 |
| V4Relay.FirstRelayMarksOnce | src/dhcp/v4/pipeline.rs:93-263 | for any VSS settings: which chains a first-relay packet passes; it comes out as the first relay sent it but for the last VSS relay's entries |
| V4Relay.FirstRelayAloneMarks | src/dhcp/v4/pipeline.rs:93-172 | with VSS off later on, giaddr and Option 82 are set once, by the first relay, and the message stays equal |
| V4Relay.NoForwardingLoop | src/dhcp/v4/giaddr.rs:46-48 | a packet back at a relay owning its giaddr is refused as a spoof, so no chain leads through the first relay again |
| V4Relay.LaterLoopIsEndlessIff | src/dhcp/v4/giaddr.rs:27-53 | a loop among later relays forwards the packet any number of rounds iff none of them owns the giaddr and every VSS configuration is usable; after one round it stays equal |
| V4Relay.NextRelayStrandsIff | src/lib.rs:347-360 | the relay after a first one halts iff that one has no address, it trusts no circuit, and Option 82 is there |
| V4Relay.UnaddressedChainIff | src/lib.rs:347-360 | which packets pass a chain of relays without an address: Option 82 is inserted at most once and every relay after it is trusted |
| V4Relay.AnyChainIff | src/dhcp/v4/pipeline.rs:336-364 | any chain up to and after its first relay with an address: when a packet passes, with which giaddr and which message |
| V4Relay.ReplyOutcome | src/dhcp/v4/pipeline.rs:369-386 | a decodable reply is refused only by the echo check; otherwise it goes to ciaddr:68 or broadcast:68 |
| V4Relay.RequestEchoReply | src/dhcp/v4/pipeline.rs:122-144 | the reply pipeline given the sent table accepts a reply iff its table is equal, and then removes option 82 and nothing else |
| V4Relay.ChainEchoAcceptedIff | src/dhcp/v4/pipeline.rs:232-263 | a verbatim echo of the table that reached the server is accepted by the first relay iff no later relay has VSS on or the last that has wrote entries that were there |
| V4Relay.LiveReplyNeverRefuses | src/lib.rs:402-420 | as the task loop drives it, every decodable reply is forwarded |
| RelayStats.RelayStats.HandleV4Client | src/lib.rs:142-172 | outcome of the request pipeline; one forwarded, or one spoof on any error, or no count |
| RelayStats.RelayStats.HandleV4Server | src/lib.rs:176-201 | outcome of the reply pipeline; one forwarded and one stripped, or no count |
| RelayStats.RelayStats.OnPacket | src/lib.rs:376-423 | one received, then the outcome by message type and its counts |
| RelayStats.RouteExact | src/lib.rs:376-423 | which message types go to the server as sent by the request pipeline, and that all others go to ciaddr or 255.255.255.255 at port 68, without option 82 when enabled |
| RelayStats.CountExact | src/lib.rs:160-200 | what each packet adds to each counter |
| RelayStats.UninterruptedIsOnPacket | src/lib.rs:375-422 | a task whose steps are not interleaved with others counts exactly what the packet step of the object counts |
| RelayStats.SpoofCountedIff | src/lib.rs:168-170 | exactly which client packets are counted as spoofs and which of them are, for any configuration |
| RelayStats.RepliesAlwaysForwarded | src/lib.rs:190-200 | no packet ever takes the halted or error branch of the reply handler |
| RelayStats.CountersConserved | src/lib.rs:375-422 | over every interleaving of tasks with configurations of their own, DHCPv6 tasks included: received = forwarded + spoof + undecodable + halted + lost + held; forwarded = stripped + without strip + about to count; the other five counters stay zero |
| RelayStats.SnapshotBetween | src/lib.rs:47-52 | each field of an interleaved snapshot lies between its values at the start and the end |
| RelayStats.SnapshotCoherentIff | src/lib.rs:47-52 | for every run: a snapshot shows forwarded at most received iff no more were forwarded between the two loads than were outstanding at the first; likewise stripped and forwarded |
| RelayStats.TornSnapshot | src/lib.rs:47-52 | a run whose snapshot shows more forwarded than received |
| RelayStats.TornStripped | src/lib.rs:47-52 | a run whose snapshot shows more stripped than forwarded |

## Left out

- UDP sockets, task spawning, timers, shutdown and address parsing: input and output; a packet, a time and an interface address are parameters.
- The wire encoding of DHCPv4 and DHCPv6 messages by the library the agent uses: it is not part of this model. A buffer is undecodable or one message; encoding a message always succeeds. The library's message is a value here, so in-place edits of its options appear as new values.
- murmur3: an arbitrary function parameter; nothing is claimed about collisions.
- Sharding and memory ordering of the concurrent map and the atomic counters: each access is one atomic step.
- Counters are unbounded: the wrap of a 64-bit counter after 2^64 increments is not modelled.
- Time is an integer that can go below zero: the panic of an early subtraction is not modelled. Ticks run on their schedule; a delayed timer is not modelled.
- DpdCache.DpdCache.EvictionTicks: the source's loop never ends; the method stops after a given number of ticks.
- src/dhcp/v6/pipeline.rs, interface_id.rs, remote_id.rs and v6/vss.rs: thin wrappers over the unseen library. A DHCPv6 task therefore forwards a packet or loses it, either way as its library decides; conservation covers both.
- The log messages of the VSS check stage: the stage never changes a packet or a verdict.
- IPv4 header checksums, which the TTL decrement leaves as they are.
- Configuration defaults and serialization, selector and topology injection: configurations, engines and their selectors are parameters.
- `max_packet_size` and `has_collision`: nothing modelled here calls them. The 16-bit IPv4 identifier key is a single constructor call.
