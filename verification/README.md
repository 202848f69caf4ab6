# EasyTier state machines in Dafny

EasyTier is a mesh VPN. This project models its stateful cores and proves what they keep over
every input, every run and every interleaving:

- **Fragmentation and reassembly** (`Ipv4Wire`, `Ipv4Compose`, `Reassembly`, `ReassemblyRuns`):
  cutting an IPv4 payload into packets inside its own buffer, and rebuilding payloads from fragments
  of many datagrams in any order (section 3.2 of RFC 791).
- **Packet filter** (`PortSpecs`, `AclRules`, `AclProcessor`, `AclRuns`, `AclLaws`, `AclEffects`, `AclCache`,
  `AclWhitelist`): a first-match scan with token buckets, connection tracking and rule counters as side effects, a
  cache in front of it, and sweeps behind it; and the chain generated from port whitelists.
- **Token bucket** (`TokenBucket`): load and compare-and-swap loops of any number of consumers and one
  refiller on one counter.
- **TCP NAT proxy** (`TcpNat`, `NatRewrite`, `CidrSet`): the life of NAT entries across three shared
  maps, which packets are taken on and where their connections lead, the two packet rewrites, and the
  mapped-to-real address arithmetic.
- **Health ring** (`HealthRing`, `HealthLog`, `HealthRuns`, `HealthLoad`, `HealthEdges`): checks counted
  in a ring of lazily cleared slots, against a plain log of checks, and loaded from records.
- **Waiting for instances** (`WaitProtocol`, `WaitScan`, `WaitRestart`, `WaitExamples`): a waiter on
  one-permit notifications that scans a sharded map while instances start, stop and are deleted.

Code that updates fields, maps or buffers in place is a class or an array method proved against a
specification function; the laws are lemmas about that function. Concurrent protocols (token bucket,
NAT entries, waiting) are state machines whose steps are the atomic operations of the code: one operation
on a shared map with the loads and stores made under its lock, one load, store or exchange of an atomic,
one notification. `Options` and `Sets` hold what several modules share.

## Where the code falls short of what one would expect

Each of these is proved by the lemmas named with it: the exact condition under which the code does meet the
expectation, and a failing example where the condition does not itself name one.

- The rule cache uses one key for an absent port and port zero, while rules tell them apart. Sharing a
  key is harmless under every configuration if and only if the same ports are present
  (`AclRuns.KeyFaithful`, `AclRuns.MixedPortsMisdecide`).
- A cached packet panics when its bucket has been swept. No run panics whose sweeps follow a cache
  cleanup within a given delay, if and only if that delay is at most five seconds
  (`AclRuns.SweepDelayExact`, `AclRuns.LateSweepPanics`).
- A rate-limited rule counts every passing packet twice (`AclLaws.PacketCounts`), and a rate drop of a
  stateful rule is reported under `Stateful` on a hit and `Priority` on a miss (`AclRuns.Agrees`).
- A limiter belongs to a chain type and a priority, so rules that agree in both share one bucket, with the
  burst of the rule that was met first (`AclEffects.RunActionFromConfiguration`).
- With the wall clock set back, a sweep takes every connection last seen after the new time
  (`AclEffects.ExpiredExact`, `AclEffects.ConnectionHistory`).
- In its first fifteen seconds a cleanup empties the cache (`AclCache.CleanupExact`).
- A refill credits within one token of rate times the time it covers if and only if its own amount fits
  64 bits (`TokenBucket.SaturationExact`, `TokenBucket.SaturatedFallsShort`).
- A reply is rewritten with the older connection of its source while that one is still mapped, and a
  peer whose address is the first of the local network is mistaken for the local node. The reply is right
  if and only if neither is the case (`NatRewrite.RewriteRoundTrip`, `NatRewrite.SynAnswered`). The accept
  loop mistakes such a peer even when the built-in stack does not (`NatRewrite.AcceptFindsSyn`).
- Reading the health ring clears a slot's total whenever it looks at another bucket than the slot's, but
  never its healthy count. Healthy entries can so be left over from the day before, and healthy checks can
  outnumber checks. What every slot counts is said in terms of checks and reads for every state of every
  run, with reads at any time and from any beginning not ahead of its clock (`HealthRuns.EverySlot`). From
  a record true to its checks, the count of unhealthy ones falls below zero if and only if reads made the
  ring forget more checks of the latest buckets than were unhealthy (`HealthRuns.UnhealthyFromLog`, `HealthRuns.UnhealthyExact`,
  `HealthEdges.ReadCanUnderflow`).
- An update reads the clock twice. A read of the ring afterwards keeps it true to the log if and only if
  both readings fall into one bucket (`HealthLog.SplitClockExact`, `HealthLog.ReadExact`,
  `HealthEdges.SplitClockLosesCheck`, `HealthEdges.StraddleCanUnderflow`).
- Records are loaded newest first, and a day touches 97 buckets of 96 slots, so the oldest record can wipe
  the newest out, and its healthy checks are then reported for the newest bucket. All other buckets are
  exact. The total of the newest is exact if and only if it has no recent record or no older one is in its
  slot, its healthy count if and only if it agrees with that of the oldest bucket of the slot that has
  healthy records (`HealthLoad.LoadedTotals`, `HealthLoad.LoadedHealthy`, `HealthLoad.OlderEntriesExact`,
  `HealthEdges.NewestFirstLosesCheck`, `HealthEdges.StaleHealthyAfterLoad`). The count of unhealthy checks
  can so be below zero without any read (`HealthLoad.LoadedUnhealthyExact`,
  `HealthEdges.LoadCanUnderflow`).
- The watcher of a stopped instance removes the stop task of its identifier whoever it belongs to. An
  identifier started again before that can lose its watcher, as can an instance deleted before the call
  that started it has looked it up; the waiter then sleeps on. From every good state, a step leaves no way
  to lose a wake-up if and only if it is neither of these or the wait is over
  (`WaitRestart.HarmlessExact`, `WaitRestart.TidyGuard`, `WaitExamples.ReuseLosesWakeup`,
  `WaitExamples.EarlyDeleteLosesWakeup`). Overwriting an instance through the management service deletes
  and starts its identifier at once (`easytier/src/rpc_service/instance_manage.rs:74-99`).
- An address text counts only if it names the first address of its prefix, so an address with bits behind
  the prefix length is left out; a rule all of whose texts are left out matches every address
  (`AclRules.IpConversion`).
- The waiter scans the instance map shard by shard and can return while an instance runs. A scan misses an
  instance if and only if it was started during the scan in a shard already passed
  (`WaitScan.ScanMisses`, `WaitScan.LateStartMissed`).

## Model

| member | source | states |
|---|---|---|
| Ipv4Wire.ParseInvertsHeaderBytes | easytier/src/gateway/ip_reassembler.rs:217-242 | reading back a written header, its payload and whatever follows gives version, lengths, identification, flags, offset, TTL 32, protocol, source, destination and payload as they were written |
| Ipv4Wire.ParseSplit | easytier/src/gateway/ip_reassembler.rs:140-151 | a packet with options is read with its payload behind them and without the bytes behind its total length |
| Ipv4Wire.DeserializeInverts | easytier/src/gateway/ip_reassembler.rs:217-242 | words written high byte first are read back |
| Ipv4Wire.ChecksumVerifies | easytier/src/gateway/ip_reassembler.rs:242-242 | a receiver that sums up the words of a written header gets all ones (section 3.1 of RFC 791) |
| Ipv4Compose.ComposeIpv4Packet | easytier/src/gateway/ip_reassembler.rs:205-253 | although headers are written over the buffer itself, the packets handed to the callback are those of the payload the buffer held at the start; all of them are sent, or all up to the first one refused |
| Ipv4Compose.ComposePiece | easytier/src/gateway/ip_reassembler.rs:213-250 | one turn emits the packet of its piece and leaves the unsent payload untouched |
| Ipv4Compose.BuildHeader | easytier/src/gateway/ip_reassembler.rs:216-241 | the header made from the running values of the loop is the header of that piece, and the alignment assertion holds |
| Ipv4Compose.WriteHeader | easytier/src/gateway/ip_reassembler.rs:217-242 | writes the twenty bytes of the header and nothing else |
| Ipv4Compose.PieceCountBounds | easytier/src/gateway/ip_reassembler.rs:209-213 | the rounded-up quotient is exactly the number of turns of the loop: there is a piece i if and only if its start lies inside the payload |
| Ipv4Compose.PiecesConcat | easytier/src/gateway/ip_reassembler.rs:213-250 | the first n pieces concatenate to the first n times MTU bytes of the payload |
| Ipv4Compose.PieceParses | easytier/src/gateway/ip_reassembler.rs:217-246 | what a receiver reads from packet i, whatever bytes follow it: addresses, protocol and identification of the flow, flags, offset and piece |
| Ipv4Compose.PieceOffset | easytier/src/gateway/ip_reassembler.rs:230-234 | the offset field times eight is the start of the piece, without loss |
| Ipv4Compose.FieldsOfPiece | easytier/src/gateway/ip_reassembler.rs:224-241 | offset times eight is the length sent before; MoreFragments on all packets but the last, DontFragment on a single one; source, destination, protocol and identification are those of the flow |
| Ipv4Compose.CompositionLaws | easytier/src/gateway/ip_reassembler.rs:205-253 | the payloads of all packets concatenate to the original and every packet has the right fields |
| Reassembly.AddFragmentTo | easytier/src/gateway/ip_reassembler.rs:44-59 | the fragment is kept if and only if it overlaps none of those held, in the 16-bit arithmetic of the code |
| Reassembly.CheckComplete | easytier/src/gateway/ip_reassembler.rs:61-71 | complete means a known total length equal to the 16-bit sum of all lengths |
| Reassembly.CopyAll | easytier/src/gateway/ip_reassembler.rs:86-90 | copies all fragments into the packet one after the other, or reports a slice out of range |
| Reassembly.Assemble | easytier/src/gateway/ip_reassembler.rs:77-93 | incomplete, assembled from the fragments sorted by offset, or out of range |
| Reassembly.Receive | easytier/src/gateway/ip_reassembler.rs:149-176 | a last fragment fixes the total length, then the fragment is added |
| Reassembly.IpReassembler.constructor | easytier/src/gateway/ip_reassembler.rs:116-121 | starts with no packets |
| Reassembly.IpReassembler.AddFragment | easytier/src/gateway/ip_reassembler.rs:131-185 | the whole new map and the outcome: a packet with contradictory lengths changes nothing, an assembled datagram is forgotten, anything else is kept with a new timestamp |
| Reassembly.IpReassembler.RemoveExpiredPackets | easytier/src/gateway/ip_reassembler.rs:187-191 | exactly the entries idle for longer than the timeout are gone |
| Reassembly.OverlapAny | easytier/src/gateway/ip_reassembler.rs:46-56 | fragments within 16 bits overlap if and only if they share a position or an empty one lies inside the other |
| Reassembly.SortAscends | easytier/src/gateway/ip_reassembler.rs:82-83 | fragments are put in place by offset |
| Reassembly.AssembleExact | easytier/src/gateway/ip_reassembler.rs:61-93 | for any fragments: put together if and only if the 16-bit sum is the total length, and out of range if and only if one of them then ends beyond it |
| Reassembly.ApartCoverExactly | easytier/src/gateway/ip_reassembler.rs:44-71 | fragments that do not overlap write as many positions as they hold bytes, so none is written twice |
| Reassembly.SumDecidesCoverage | easytier/src/gateway/ip_reassembler.rs:61-71 | non-overlapping fragments of a payload sum to its length if and only if they cover it |
| Reassembly.OverlapTestExact | easytier/src/gateway/ip_reassembler.rs:46-56 | for fragments of one payload the wrapping overlap test is true exactly when they overlap |
| Reassembly.WithFragmentStaysTruthful | easytier/src/gateway/ip_reassembler.rs:44-59 | adding a fragment of the payload keeps all fragments apart and true to the payload |
| Reassembly.BlitTruth | easytier/src/gateway/ip_reassembler.rs:85-90 | after copying, covered positions hold the byte of the payload and the others are untouched |
| Reassembly.AssembleTruth | easytier/src/gateway/ip_reassembler.rs:77-93 | assembling fragments of a payload gives the payload once they cover it and nothing before, never out of range |
| ReassemblyRuns.ReceivedPiece | easytier/src/gateway/ip_reassembler.rs:131-176 | a composed packet is received as exactly its piece under the addresses and identification read from it, and the last one tells the length of the payload |
| ReassemblyRuns.TruncatedIgnored | easytier/src/gateway/ip_reassembler.rs:138-147 | a composed packet that lost its end changes nothing, wherever it was cut behind its header |
| ReassemblyRuns.PaddingIgnored | easytier/src/gateway/ip_reassembler.rs:131-149 | bytes behind the end of a composed packet make no difference |
| ReassemblyRuns.FragmentedExact | easytier/src/gateway/ip_reassembler.rs:123-129 | a composed packet is treated as a fragment if and only if its datagram was cut, and as the last one if and only if it is the last piece |
| ReassemblyRuns.MatchesExtends | easytier/src/gateway/ip_reassembler.rs:44-59 | an entry that has seen some pieces and receives one more has seen those and that one, repeats included |
| ReassemblyRuns.CoverageMeansAllReceived | easytier/src/gateway/ip_reassembler.rs:61-71 | an entry covers the payload if and only if every piece has been received |
| ReassemblyRuns.OutcomeOfMatch | easytier/src/gateway/ip_reassembler.rs:77-93 | an entry assembles to the payload exactly when every piece has been received |
| ReassemblyRuns.StepRelated | easytier/src/gateway/ip_reassembler.rs:131-191 | one delivery, keyed by the addresses of the packet, or one sweep has the outcome of a reference that only remembers which pieces were seen |
| ReassemblyRuns.RunRelated | easytier/src/gateway/ip_reassembler.rs:131-191 | so has every run over the fragments of many datagrams mixed with sweeps: whatever is returned for a key is the full payload of its datagram, and no slice is out of range |
| ReassemblyRuns.RoundTrip | easytier/src/gateway/ip_reassembler.rs:131-253 | the pieces of one composition, in any order and with repeats, give nothing until the last missing one arrives and then exactly the payload |
| PortSpecs.AcceptSpec | easytier/src/common/acl_processor.rs:1056-1085 | what a whitelist entry is accepted as, or that it is refused |
| PortSpecs.ParsePortList | easytier/src/common/acl_processor.rs:1052-1089 | the list is accepted if and only if every entry is, and then yields the accepted texts in order |
| PortSpecs.DecimalOfText | easytier/src/common/acl_processor.rs:1081-1084 | the decimal text of a number denotes that number |
| PortSpecs.TextCanonical | easytier/src/common/acl_processor.rs:1081-1084 | the decimal text of a number has no leading zero |
| PortSpecs.TrimKeepsNumbers | easytier/src/common/acl_processor.rs:964-973 | trimming leaves every text that parses as a number alone |
| PortSpecs.PortReadsBack | easytier/src/common/acl_processor.rs:964-973 | the canonical text of a port reads back as the range of that one port |
| PortSpecs.AcceptedReadsBack | easytier/src/common/acl_processor.rs:964-973 | the rule parser reads an accepted text as the range it was accepted with |
| PortSpecs.RangeTextAccepted | easytier/src/common/acl_processor.rs:1056-1078 | two ports in order with a dash between them are accepted as the range from one to the other |
| PortSpecs.NumberExact | easytier/src/common/acl_processor.rs:964-973 | a text parses as a port if and only if it is decimal digits for a number below 2^16 after at most one plus sign |
| PortSpecs.TrimExact | easytier/src/common/acl_processor.rs:966-970 | trimming takes spaces, and all of them, from both ends and nothing else |
| PortSpecs.PortRangeExact | easytier/src/common/acl_processor.rs:964-973 | the rule parser reads a range if and only if the text is one number, or two with a dash between them, spaces around each number allowed |
| PortSpecs.AcceptedExact | easytier/src/common/acl_processor.rs:1056-1085 | the whitelist accepts a text if and only if it is one number, or two in order with a dash between them, without spaces; as which range, and which text it keeps |
| AclRules.FirstMatch | easytier/src/common/acl_processor.rs:525-529 | the first rule that is enabled and matches, with none before it |
| AclRules.BuildRules | easytier/src/common/acl_processor.rs:322-367 | the three rule lists: enabled chains in configured order, each sorted on its own |
| AclRules.PortConversion | easytier/src/common/acl_processor.rs:825-847 | matching parsed port ranges is the port condition of the configured texts, unreadable texts ignored |
| AclRules.IpConversion | easytier/src/common/acl_processor.rs:813-876 | matching parsed prefixes is the address condition of the configured texts: agreement with some readable text in the bits of its prefix; a list without a readable text admits every address |
| AclRules.PrefixExact | easytier/src/common/acl_processor.rs:652-664 | a prefix contains exactly the addresses of its kind that agree with it in the bits of the prefix |
| AclRules.ConversionFaithful | easytier/src/common/acl_processor.rs:645-730 | a converted rule matches exactly the packets the configured rule admits |
| AclRules.FoundInInsert | easytier/src/common/acl_processor.rs:347-348 | inserting a rule into a sorted list changes the first match only if the rule matches with a higher priority |
| AclRules.FoundInChain | easytier/src/common/acl_processor.rs:340-348 | the first match in a built chain is its matching rule of highest priority, the earliest among equals |
| AclRules.RuleOrder | easytier/src/common/acl_processor.rs:322-367 | the rule found is that of the first enabled chain of the type with a matching enabled rule, by priority and then configured order, and none if there is none |
| AclRules.ChosenUnique | easytier/src/common/acl_processor.rs:322-367 | the configuration chooses at most one rule |
| AclProcessor.AclProcessor.constructor | easytier/src/common/acl_processor.rs:240-278 | rule lists and defaults are those of the configuration; all tables start empty and the cache holds 1024 entries |
| AclProcessor.AclProcessor.CheckRateLimit | easytier/src/common/acl_processor.rs:778-809 | pass, limited or the panic, and the new buckets |
| AclProcessor.AclProcessor.CheckConnectionState | easytier/src/common/acl_processor.rs:743-775 | the new tracking table |
| AclProcessor.AclProcessor.IncCacheEntryStats | easytier/src/common/acl_processor.rs:460-469 | every listed counter is counted once for each time it is listed |
| AclProcessor.SortedByAge | easytier/src/common/acl_processor.rs:412-419 | a listing of all entries, each once, oldest first |
| AclProcessor.RemoveOldest | easytier/src/common/acl_processor.rs:421-425 | removes the given number of entries, none newer than a survivor, and changes no other |
| AclProcessor.OldestRemoved | easytier/src/common/acl_processor.rs:419-425 | with a prefix of an age-ordered listing removed, no evicted entry is newer than a survivor |
| AclProcessor.AclProcessor.CleanupCache | easytier/src/common/acl_processor.rs:400-432 | entries unused for 15 s go; if more than the maximum remain, exactly the maximum less a fifth survives and nothing evicted is newer than a survivor |
| AclProcessor.AclProcessor.CacheResult | easytier/src/common/acl_processor.rs:633-642 | the entry is added, with a cleanup beyond twice the maximum |
| AclProcessor.AclProcessor.ProcessPacketWithCacheEntry | easytier/src/common/acl_processor.rs:434-458 | result and new state of a cached decision, or the panic on a missing bucket |
| AclProcessor.AclProcessor.Settle | easytier/src/common/acl_processor.rs:547-583 | a packet no limiter stopped is tracked, counted and cached as its decision says |
| AclProcessor.AclProcessor.ProcessMatch | easytier/src/common/acl_processor.rs:531-583 | the loop body for the matching rule does what the scan prescribes |
| AclProcessor.AclProcessor.ProcessDefault | easytier/src/common/acl_processor.rs:586-620 | so does the default path |
| AclProcessor.AclProcessor.ProcessPacket | easytier/src/common/acl_processor.rs:486-621 | result and whole new state for a hit, an unsupported chain type and a miss |
| AclProcessor.AclProcessor.SweepLimiters | easytier/src/common/acl_processor.rs:383-383 | exactly the buckets used within the last 20 s stay |
| AclProcessor.AclProcessor.CleanupExpiredConnections | easytier/src/common/acl_processor.rs:905-927 | exactly the connections whose 64-bit age exceeds 60 s go |
| AclProcessor.ScanAction | easytier/src/common/acl_processor.rs:525-620 | unless a limiter drops the packet, the action of a scan is that of the rule found or the default |
| AclRuns.KeyFaithful | easytier/src/common/acl_processor.rs:93-106 | two packets with one cache key are decided alike under every configuration if and only if the same ports are present |
| AclRuns.HitMatchesScan | easytier/src/common/acl_processor.rs:434-458 | with its bucket in place, a hit changes the state as the scan does and gives its decision |
| AclRuns.CleanedSubset | easytier/src/common/acl_processor.rs:400-432 | a cleanup changes no entry, keeps at most the maximum and none older than 15 s |
| AclRuns.CachedBound | easytier/src/common/acl_processor.rs:633-642 | after caching a result the cache holds at most twice the maximum, and every entry is the new one or an old one |
| AclRuns.SweepKeepsInv | easytier/src/common/acl_processor.rs:376-386 | a bucket sweep within five seconds of the cleanup takes no bucket that a cache entry still needs |
| AclRuns.StepRefines | easytier/src/common/acl_processor.rs:434-621 | every packet, cleanup, sweep and refill keeps the cache invariant and acts as the cache-free reference |
| AclRuns.StepOfRun | easytier/src/common/acl_processor.rs:434-621 | the same inside a run, against the state of the reference run |
| AclRuns.RunRefines | easytier/src/common/acl_processor.rs:370-621 | after every prefix of a run, buckets, connections and counters are those of the reference run and every cache entry has its bucket |
| AclRuns.CacheRefinement | easytier/src/common/acl_processor.rs:370-621 | the cache is invisible over every run: same state, same decision for every packet, no panic, at most twice the maximum of entries |
| AclRuns.MixedPortsMisdecide | easytier/src/common/acl_processor.rs:100-101 | a run in which a packet with port zero is allowed from the cache although the scan drops it |
| AclRuns.LateSweepPanics | easytier/src/common/acl_processor.rs:376-386 | a run in which a sweep 5001 ms after the cleanup makes a cached packet panic |
| AclRuns.SweepDelayExact | easytier/src/common/acl_processor.rs:376-386 | runs whose sweeps come within a delay of the cleanup never panic if and only if the delay is at most five seconds |
| AclRuns.DefaultIsFirstChain | easytier/src/common/acl_processor.rs:280-319 | the default is that of the first chain of the type, enabled or not |
| AclRuns.DefaultWithoutChain | easytier/src/common/acl_processor.rs:280-319 | without a chain of the type the default is Allow |
| AclRuns.DecidedLikeScan | easytier/src/common/acl_processor.rs:486-621 | through the cache, every packet of a run gets the action and the log of a scan in the state of the reference |
| AclEffects.ActionFromConfiguration | easytier/src/common/acl_processor.rs:280-620 | a scan drops a packet for want of a token exactly when the rule the configuration chooses is limited and its bucket, or its burst before there is a bucket, has none left; otherwise it gives the full result of that rule, or the default. One token leaves the bucket of that type and priority and no other bucket changes; the connection is noted exactly when the rule is stateful and allows |
| AclEffects.RunActionFromConfiguration | easytier/src/common/acl_processor.rs:280-621 | the same through the cache, for the result and the change of state of every packet of a run; an unspecified chain type drops and changes nothing |
| AclEffects.ExpiredExact | easytier/src/common/acl_processor.rs:905-920 | the 64-bit age exceeds a minute if and only if the connection is older than that or was last seen after the clock was set back |
| AclEffects.PacketNotes | easytier/src/common/acl_processor.rs:434-583 | in any state a packet is noted as one of its connection if and only if its log says so, and then under the key of its own addresses and ports |
| AclEffects.ConnectionHistory | easytier/src/common/acl_processor.rs:743-927 | in every run, with any sweeps and ports, a connection is in the table if and only if callers saw a packet of it allowed as such since a sweep last found it stale; its entry dates from the first of these packets, was last seen with the last, is established from the second on, and counts them all |
| AclCache.EntriesDated | easytier/src/common/acl_processor.rs:492-523 | in every run an entry is as old as the latest packet of its key |
| AclCache.CleanupExact | easytier/src/common/acl_processor.rs:400-432 | in every run a cleanup keeps entries of keys used within fifteen seconds only and none in the first fifteen seconds of the clock: all of them up to the maximum, else four fifths of it, rounded up, of those used last |
| AclCache.MissCaches | easytier/src/common/acl_processor.rs:547-642 | a packet looked up in vain is cached unless a limiter drops it, and nothing leaves the cache by it below twice the maximum |
| AclLaws.CountAdds | easytier/src/common/acl_processor.rs:460-469 | a counter grows by the number of times it is listed, its bytes by that many packet sizes |
| AclLaws.PacketCounts | easytier/src/common/acl_processor.rs:532-581 | a passing packet counts, in packets and in bytes, once for an unlimited rule, twice for a rate-limited one, once for the default, and for no other rule of any chain |
| AclLaws.CountersTally | easytier/src/common/acl_processor.rs:493-597 | in every run each counter is the number of hits, of misses that matched a rule, and of misses allowed or dropped by default |
| AclLaws.TrackedConnection | easytier/src/common/acl_processor.rs:743-775 | after any packets of one connection: new with one and established with more, first and last times, number of packets and bytes |
| AclLaws.PassesBounded | easytier/src/common/acl_processor.rs:778-809 | no more packets pass than burst and refills allow; as long as no refill is more than what was taken, what passed and what is left make up burst and refills exactly |
| AclLaws.OverfullRefill | easytier/src/common/token_bucket.rs:107-121 | a refill adds its amount, or fills the bucket when that is more than fits, and changes nothing else |
| AclWhitelist.AclRuleBuilder.GenerateAclFromWhitelists | easytier/src/common/acl_processor.rs:1091-1174 | an error leaves the configuration alone; otherwise one chain is added behind the configured ones |
| AclWhitelist.RangesOfTexts | easytier/src/common/acl_processor.rs:837-847 | every accepted entry becomes exactly the range it was accepted as, so no list ends up empty |
| AclWhitelist.WhitelistRuleMatches | easytier/src/common/acl_processor.rs:1109-1153 | a whitelist rule matches exactly its protocol and, if there is a destination port, its listed ports |
| AclWhitelist.ChainMeaning | easytier/src/common/acl_processor.rs:1096-1153 | some rule of the generated chain applies exactly to the permitted packets, and all of them allow without a limit |
| AclWhitelist.WhitelistScan | easytier/src/common/acl_processor.rs:1091-1179 | a scan with the generated chain allows exactly the permitted packets, whatever the state |
| AclWhitelist.WhitelistMeaning | easytier/src/common/acl_processor.rs:1091-1179 | end to end, cache and sweeps included, the full result of every inbound packet of every run: allowed exactly when its protocol has a list and its destination port, if any, is listed, by the rule of its protocol, otherwise dropped by default; exactly the permitted TCP packets are noted as those of a connection and no limiter is touched |
| TokenBucket.ComputeKeepsCredit | easytier/src/common/token_bucket.rs:93-104 | what is credited never exceeds rate times time |
| TokenBucket.ComputeExact | easytier/src/common/token_bucket.rs:97-101 | a refill never credits more than rate times the time elapsed, and less than one token less if and only if that amount fits 64 bits |
| TokenBucket.StepKeepsInv | easytier/src/common/token_bucket.rs:93-156 | every load, exchange (failing spuriously or not), clock read and swap keeps the accounts |
| TokenBucket.RunKeepsInv | easytier/src/common/token_bucket.rs:59-156 | the accounts hold in every state of every interleaving |
| TokenBucket.TokenConservation | easytier/src/common/token_bucket.rs:59-156 | in every state of every interleaving, the tokens of all calls that returned true, those available and those discarded make up the capacity and what was added; the counter never exceeds the capacity; grants are at most capacity plus rate times time |
| TokenBucket.GrantTakes | easytier/src/common/token_bucket.rs:139-155 | a call returns true only by an exchange that finds its tokens and takes them away |
| TokenBucket.GrantedIsConsumed | easytier/src/common/token_bucket.rs:133-156 | in every run the tokens of all calls that returned true are the tokens consumed |
| TokenBucket.DiscardedAtCapacity | easytier/src/common/token_bucket.rs:107-121 | tokens are thrown away only by a step that leaves the counter at the capacity, and only grants take tokens from it |
| TokenBucket.CallKeepsTokens | easytier/src/common/token_bucket.rs:133-145 | a call is about the tokens it asked for until it returns |
| TokenBucket.RefilledUntilStart | easytier/src/common/token_bucket.rs:93-95 | refills cover the time up to the clock reading of the latest one |
| TokenBucket.ExchangeDecides | easytier/src/common/token_bucket.rs:107-155 | an exchange that finds the counter as it was read and does not fail of itself ends its loop, of a call or a refill; any other goes on with the counter as it is now |
| TokenBucket.RefillAccuracy | easytier/src/common/token_bucket.rs:93-122 | tokens added never exceed rate times time; if no single refill saturates they fall short by at most a token a refill, however long the run |
| TokenBucket.SaturationExact | easytier/src/common/token_bucket.rs:97-101 | in every run a refill credits within one token of rate times the time it covers if and only if it does not saturate |
| TokenBucket.SaturatedFallsShort | easytier/src/common/token_bucket.rs:97-101 | a run whose first refill saturates and leaves the tokens short by more than one |
| TokenBucket.CurrentWasRead | easytier/src/common/token_bucket.rs:139-155 | the value a consumer compares with was the counter at some moment of its call |
| TokenBucket.RefusalJustified | easytier/src/common/token_bucket.rs:133-156 | a refused call exceeds the capacity or met too few tokens at some moment while it ran |
| TcpNat.AssertionsHold | easytier/src/gateway/tcp_proxy.rs:405-769 | in a good state no assertion and no unchecked lookup fails |
| TcpNat.ConnKept | easytier/src/gateway/tcp_proxy.rs:680-712 | the connection map holds exactly the connections between their insertion and their removal |
| TcpNat.AddrAtKept | easytier/src/gateway/tcp_proxy.rs:679-712 | every step keeps each source mapped to its latest accepted connection until that one removes itself |
| TcpNat.StepKeepsInv | easytier/src/gateway/tcp_proxy.rs:502-811 | every step of SYN arrival, sweep, accept loop and connection tasks keeps the state good |
| TcpNat.RunKeepsInv | easytier/src/gateway/tcp_proxy.rs:502-811 | every state of every interleaving is good |
| TcpNat.AssertionsUnreachable | easytier/src/gateway/tcp_proxy.rs:405-769 | the source, SynReceived, fresh-identifier and ConnectingDst assertions never fire |
| TcpNat.LatestConnection | easytier/src/gateway/tcp_proxy.rs:673-719 | a source is mapped if and only if its latest accepted connection is not finished, to that connection, which is in the connection map except between two adjacent map operations |
| TcpNat.LatestSyn | easytier/src/gateway/tcp_proxy.rs:502-676 | a source waits in the SYN map if and only if its latest SYN has neither expired nor been taken on, and then with that one |
| TcpNat.LookupServes | easytier/src/gateway/tcp_proxy.rs:395-402 | a lookup finds the connection accepted last from the source while it lives, else its latest SYN while it waits |
| TcpNat.EntryHistory | easytier/src/gateway/tcp_proxy.rs:892-901 | in every state of every run an entry is exactly what the SYN that opened it said: source, destination named, the address behind it with the same port, and time |
| TcpNat.OpenedToHistory | easytier/src/gateway/tcp_proxy.rs:892-901 | so it has a source and a destination if and only if a SYN from there to there opened it |
| TcpNat.SynExpires | easytier/src/gateway/tcp_proxy.rs:502-517 | a sweep takes a waiting source out of the SYN map if and only if its SYN came more than thirty seconds ago, and closes its entry |
| TcpNat.SynLeaves | easytier/src/gateway/tcp_proxy.rs:502-676 | a waiting source leaves the SYN map only so, or when the accept loop takes its entry on |
| TcpNat.EntryStates | easytier/src/gateway/tcp_proxy.rs:502-811 | in every run the state shown for an entry is that of its connection task, connecting from when it was taken on, and before that closed if and only if it was swept |
| TcpNat.OnlyOwnMappingRemoved | easytier/src/gateway/tcp_proxy.rs:706-719 | a mapping disappears only by the removal step of the very connection mapped |
| NatRewrite.TcpPacket.TryHandlePeerPacket | easytier/src/gateway/tcp_proxy.rs:846-937 | which packets are taken on, the entry a SYN opens with the address behind its destination, and the rewritten endpoints |
| NatRewrite.CheckPacketFromPeer | easytier/src/gateway/tcp_proxy.rs:84-109 | whether a packet is for the proxy, and the address behind its destination |
| NatRewrite.TargetExact | easytier/src/gateway/tcp_proxy.rs:84-109 | for the proxy if and only if something is proxied and the packet goes to a mapped address, an exit node, or the node itself without a device; an unmapped address stands for itself, and with disjoint prefixes a mapped one for its image |
| NatRewrite.ConnectsToReal | easytier/src/gateway/tcp_proxy.rs:733-900 | in every later state of every run the connection opened by a SYN to a mapped address leads to the address of the real prefix with the same host bits and the port named, or to the loopback address when that is the node itself |
| NatRewrite.FirstAddress | easytier/src/gateway/tcp_proxy.rs:842-844 | the stand-in keeps the network bits of the local address and no others |
| NatRewrite.ListensAt | easytier/src/gateway/tcp_proxy.rs:825-831 | the built-in stack listens at its fixed address, the kernel at the virtual one |
| NatRewrite.InboundSources | easytier/src/gateway/tcp_proxy.rs:921-932 | to the kernel no packet seems to come from its own address unless that is the first of its network; other sources are kept and sources that cannot be confused stay apart |
| NatRewrite.AcceptFindsSyn | easytier/src/gateway/tcp_proxy.rs:649-670 | in every run the accept loop finds the SYN of a packet under the source the local stack reports if and only if that source is not the first address of the virtual network |
| NatRewrite.TcpPacket.TryProcessPacketFromNic | easytier/src/gateway/tcp_proxy.rs:376-436 | which packets are replies, and their rewritten endpoints; others stay as they are |
| NatRewrite.RewriteRoundTrip | easytier/src/gateway/tcp_proxy.rs:361-436 | in every state of every run: rewritten in, answered and rewritten out, a packet comes back with its endpoints exchanged if and only if its source is not the stand-in address and the connection serving its source was opened to its destination |
| NatRewrite.SingleFlow | easytier/src/gateway/tcp_proxy.rs:361-436 | a source that opens connections to one destination only gets its replies right through accept, copy and close as long as any entry of it is mapped |
| NatRewrite.SynAnswered | easytier/src/gateway/tcp_proxy.rs:892-932 | right after a SYN its answer comes back right if and only if no older connection of the source is mapped, or that one fits too |
| CidrSet.ProxyConfig.AddProxyCidr | easytier/src/common/config.rs:562-599 | refused if and only if the prefix lengths differ; otherwise in the list, once |
| CidrSet.CidrTable.Update | easytier/src/gateway/mod.rs:52-66 | the two tables are those of the new configuration, whatever they were before |
| CidrSet.CidrTable.ContainsV4 | easytier/src/gateway/mod.rs:72-93 | found, and the address written out, by the first prefix that contains the address |
| CidrSet.FirstContaining | easytier/src/gateway/mod.rs:75-76 | the first prefix that contains the address, with none before it |
| CidrSet.RealOfLast | easytier/src/gateway/mod.rs:57-65 | a mapped prefix leads to the real prefix of the last pair that maps it elsewhere |
| CidrSet.FindAny | easytier/src/gateway/mod.rs:45-93 | for any pairs, overlapping and repeated ones included: found if and only if some mapped prefix contains the address; remapped from the first such prefix to the real prefix of the last pair that maps it elsewhere |
| CidrSet.RemapInverts | easytier/src/gateway/mod.rs:78-85 | remapping lands in the real prefix, keeps the host bits and is undone by remapping back |
| CidrSet.RealOfPair | easytier/src/gateway/mod.rs:57-65 | a mapped prefix that is nobody else's leads to its own real prefix |
| CidrSet.FindInPair | easytier/src/gateway/mod.rs:72-93 | for disjoint mapped prefixes an address is remapped by its own pair |
| CidrSet.RemapIsBijection | easytier/src/gateway/mod.rs:45-93 | the lookup succeeds exactly on mapped addresses and sends each mapped prefix one-to-one onto its real prefix, host bits kept |
| HealthRing.RoundAndSlot | neo-uptime-node/src/health_checker.rs:49-57 | round and slot together determine the bucket and are determined by it |
| HealthRing.WindowSlotsDiffer | neo-uptime-node/src/health_checker.rs:226-229 | the 96 entries reported come from 96 different slots |
| HealthRing.ReadTotalsRead | neo-uptime-node/src/health_checker.rs:226-232 | reading brings each slot to the round of its entry once and leaves it so |
| HealthRing.HealthyMemRecord.constructor | neo-uptime-node/src/health_checker.rs:84-94 | empty rings |
| HealthRing.HealthyMemRecord.FromDbRecords | neo-uptime-node/src/health_checker.rs:97-121 | empty rings filled from the records, dated by the first of them |
| HealthRing.HealthyMemRecord.UpdateHealthStatus | neo-uptime-node/src/health_checker.rs:145-165 | the new rings and check time |
| HealthRing.HealthyMemRecord.GetHealthStats | neo-uptime-node/src/health_checker.rs:168-190 | the sums of both rings and their difference, or that it is below zero |
| HealthRing.HealthyMemRecord.GetCounterRing | neo-uptime-node/src/health_checker.rs:217-235 | the 96 entries of both rings and the cleared total ring |
| HealthRing.HealthyMemRecord.PopulateRingFromRecords | neo-uptime-node/src/health_checker.rs:124-142 | both rings after counting the records of the last day |
| HealthLog.UpdateKeepsInv | neo-uptime-node/src/health_checker.rs:145-165 | after an update every slot counts its bucket of the log with this check added, whether or not the two clock readings straddle a boundary |
| HealthLog.ReadExact | neo-uptime-node/src/health_checker.rs:217-235 | a read keeps the ring true to the log if and only if no check lies in a bucket after that of the last check time |
| HealthLog.SplitClockExact | neo-uptime-node/src/health_checker.rs:152-157 | an update followed by a read keeps the ring true to the log if and only if both clock readings fall into one bucket |
| HealthLog.HealthyIsLatest | neo-uptime-node/src/health_checker.rs:157-165 | the healthy count of a slot is that of its latest bucket with a check |
| HealthRuns.EverySlot | neo-uptime-node/src/health_checker.rs:145-235 | in every state of every run, from any beginning not ahead of its clock and with reads at any time: a slot's total is the checks of its bucket logged since the last read that missed it, its healthy count all healthy checks of its bucket, with what it began with |
| HealthRuns.EntriesKnown | neo-uptime-node/src/health_checker.rs:217-235 | so a total reported is the slot's total if its bucket is the one asked for and zero otherwise, and a healthy count the slot's whatever its bucket |
| HealthRuns.UnhealthyExact | neo-uptime-node/src/health_checker.rs:168-190 | in every state of every run, total less healthy checks is the sum of these differences over the slots, and not below zero if and only if that sum is not |
| HealthRuns.OrderKept | neo-uptime-node/src/health_checker.rs:157-232 | a slot that began in order gets out of order only by a read that misses its bucket |
| HealthRuns.UpdatesNeverBelowZero | neo-uptime-node/src/health_checker.rs:145-188 | without reads, a record whose slots began in order never counts below zero |
| HealthRuns.NewStarts | neo-uptime-node/src/health_checker.rs:84-94 | a new record may begin a run, true to an empty log and in order |
| HealthRuns.RingEqualsLog | neo-uptime-node/src/health_checker.rs:217-235 | in every state of every run, a total reported for a slot that began true to a log is the number of checks logged in its bucket if and only if that is zero, or nothing later is in the slot and none of them was logged before a read that missed the bucket |
| HealthRuns.HealthyExactness | neo-uptime-node/src/health_checker.rs:217-235 | in every state of every run, a healthy count reported is that of the latest bucket of its slot with a check, and right if and only if the bucket asked for saw as many |
| HealthRuns.SlotInOrder | neo-uptime-node/src/health_checker.rs:157-232 | both counts of a slot in terms of the log; healthy checks are no more than checks if and only if no more was forgotten than was unhealthy |
| HealthRuns.UnhealthyFromLog | neo-uptime-node/src/health_checker.rs:168-190 | from a record true to its checks, the count of unhealthy checks is that of the latest buckets less all that reads made the ring forget, and not below zero if and only if the latter is no more |
| HealthRuns.RunTrueExact | neo-uptime-node/src/health_checker.rs:145-235 | the ring is true to the log in all states of a run if and only if every read came when no check was logged after the last check time |
| HealthLoad.LoadIsFill | neo-uptime-node/src/health_checker.rs:124-142 | loading counts the recent records in one ring and the recent healthy ones in the other |
| HealthLoad.RecentMembers | neo-uptime-node/src/health_checker.rs:127-132 | exactly the records of the last day count, those from the future included |
| HealthLoad.LoadedDate | neo-uptime-node/src/health_checker.rs:97-122 | a loaded record was last checked with its newest record, or was created when there is none; without recent records it counts nothing |
| HealthLoad.FillExact | neo-uptime-node/src/health_checker.rs:127-141 | a slot counts a bucket exactly if and only if no other bucket of the slot comes after it |
| HealthLoad.LoadedTotalExact | neo-uptime-node/src/health_checker.rs:97-142 | in any order of records, a total is exact if and only if its bucket has no recent record or none of another bucket of its slot comes after one of its own |
| HealthLoad.NewestFirstFill | neo-uptime-node/src/health_checker.rs:124-142 | filled newest first, a slot ends up with its oldest bucket and all the checks of it |
| HealthLoad.LoadedTotals | neo-uptime-node/src/health_checker.rs:97-142 | newest first, a total is exact if and only if its bucket has no recent record or is the oldest of its slot |
| HealthLoad.LoadedHealthy | neo-uptime-node/src/health_checker.rs:97-142 | newest first, a healthy count is that of the oldest bucket of its slot with a healthy record, and exact if and only if its own bucket has as many |
| HealthLoad.OlderEntriesExact | neo-uptime-node/src/health_checker.rs:97-142 | newest first and none from the future, all entries but the newest are exact |
| HealthLoad.LoadedStarts | neo-uptime-node/src/health_checker.rs:97-142 | records within one window, in any order, begin a run true to them, so that all laws of runs hold from there on |
| HealthLoad.LoadedGrounded | neo-uptime-node/src/health_checker.rs:97-142 | every record loaded newest first may begin a run |
| HealthLoad.OtherSlotsStart | neo-uptime-node/src/health_checker.rs:97-142 | however many buckets the records touch, every slot but that of the newest record begins true to them and in order |
| HealthLoad.LoadedUnhealthyExact | neo-uptime-node/src/health_checker.rs:97-190 | right after loading newest first, total less healthy checks is, slot by slot, the checks of the oldest bucket less the healthy ones of the oldest bucket that has any; not below zero if and only if these add up to no less |
| HealthLoad.WindowExact | neo-uptime-node/src/health_checker.rs:97-142 | within one window all totals and healthy counts are exact |
| HealthEdges.ReadCanUnderflow | neo-uptime-node/src/health_checker.rs:188-232 | a run of three checks from a new record and a read after which there are more healthy checks than checks |
| HealthEdges.StraddleCanUnderflow | neo-uptime-node/src/health_checker.rs:152-188 | a read right after a straddling healthy check leaves one healthy check and no check |
| HealthEdges.LoadCanUnderflow | neo-uptime-node/src/health_checker.rs:97-188 | three records loaded newest first leave two healthy checks and one check |
| HealthEdges.SplitClockLosesCheck | neo-uptime-node/src/health_checker.rs:152-157 | two clock readings on both sides of a bucket boundary and a read in between lose a check |
| HealthEdges.StaleHealthyAfterLoad | neo-uptime-node/src/health_checker.rs:97-142 | loaded newest first, the healthy count of a record 96 buckets older is reported for the newest bucket |
| HealthEdges.NewestFirstLosesCheck | neo-uptime-node/src/db/operations.rs:180-192 | loaded newest first, a record 96 buckets older wipes the newest out |
| HealthEdges.DayTouches97Buckets | neo-uptime-node/src/health_checker.rs:129-134 | such a pair of records exists within one day |
| WaitProtocol.WitnessKept | easytier/src/instance_manager.rs:59-100 | whatever is alive or about to notify stays so until it has notified, through every step but a deletion before its own start call has looked it up |
| WaitProtocol.RemainingNeverGrows | easytier/src/launcher.rs:234-235 | no such step sets a notification on its way back |
| WaitProtocol.NotificationArrives | easytier/src/instance_manager.rs:78-98 | its next step is always possible, and the fourth at the latest notifies the waiter |
| WaitProtocol.StepKeepsInv | easytier/src/instance_manager.rs:59-261 | every harmless step of starts, threads, watchers, guards and waiter keeps the state good |
| WaitProtocol.RunKeepsInv | easytier/src/instance_manager.rs:59-261 | every state reached by harmless steps is good |
| WaitProtocol.WakeupNeverLost | easytier/src/instance_manager.rs:247-261 | in every state reached by harmless steps, a sleeping waiter means something is alive or a notification is on its way |
| WaitRestart.HarmlessExact | easytier/src/instance_manager.rs:59-261 | from a good state, a step leaves no continuation of harmless steps that loses a wake-up if and only if it is harmless or the wait is over |
| WaitRestart.EarlyRestartUnsafe | easytier/src/instance_manager.rs:94-116 | from every good state, restarting an identifier whose old watcher is at work has a continuation that loses the wake-up of an unfinished wait |
| WaitRestart.EarlyDeleteUnsafe | easytier/src/instance_manager.rs:66-69 | deleting the waiter's only hope before its start call has looked it up has such a continuation |
| WaitRestart.TidyGuard | easytier/src/instance_manager.rs:78-95 | a restart is harmless if and only if no stop task is stored for the identifier or the stored one is over |
| WaitRestart.AbortedExact | easytier/src/instance_manager.rs:78-95 | in every run a watcher is ended from outside if and only if it still waits and its stored stop task is replaced or removed for another start of its identifier |
| WaitScan.UnseenMeansLate | easytier/src/instance_manager.rs:249-252 | at every moment of a scan of every run, an instance behind the scan is unseen if and only if it was started behind it |
| WaitScan.ScanMisses | easytier/src/instance_manager.rs:249-252 | in every run, a scan ends without having looked at an instance if and only if it was started during the scan in a shard already passed; every instance running then is such a one |
| WaitScan.RunningMeansMissed | easytier/src/instance_manager.rs:249-255 | in every run, once a scan is over, every instance still running was started behind it |
| WaitScan.ReturnMeansIdle | easytier/src/instance_manager.rs:247-261 | in every run, when the waiter returns no web client is held, and every instance running then was started behind its last scan |
| WaitScan.FoundMeansAlive | easytier/src/instance_manager.rs:249-258 | the waiter waits again only over a web client held after its scan or an instance running in the shard it was at |
| WaitScan.ScannedDecides | easytier/src/instance_manager.rs:253-258 | after a scan it returns if and only if no web client is held, and otherwise waits again |
| WaitScan.ScannedGoesOn | easytier/src/instance_manager.rs:253-258 | and one of the two is always possible |
| WaitScan.LooksAreOwed | easytier/src/instance_manager.rs:243-261 | in every run the waiter looks again at most once for each notification |
| WaitScan.LateStartMissed | easytier/src/instance_manager.rs:247-261 | a run in which the waiter returns while an instance runs |
| WaitExamples.ReuseLosesWakeup | easytier/src/instance_manager.rs:94-116 | a reachable state after an early restart with the waiter asleep, nothing alive and nothing to come |
| WaitExamples.EarlyDeleteLosesWakeup | easytier/src/instance_manager.rs:66-69 | a reachable state after an early deletion with the start call failed and the waiter asleep for good |

## Left out

- Integer widths: 16-bit arithmetic of reassembly, the 64-bit connection age and the 32-bit whitelist priority wrap as in a release build; token counts saturate at 64 bits; other counters are unbounded.
- Composition: the preconditions are those of the assertion and the slices of the code (room for one header and, for more than one piece, an MTU that is a multiple of eight); a zero MTU divides by zero in the code and is excluded. The laws need lengths that fit 16 bits.
- Malformed fragments: `Reassembly.IpReassembler.AddFragment` handles any packet, with a slice out of range as an outcome; the laws are about fragments made by composition.
- `IpPacket` is a value inside its map entry; that sorting reorders the stored fragments of a packet about to be dropped is not visible.
- TCP checksums, packet type and protocol tests and the smoltcp stack itself: a TCP packet is its two endpoints and three flags, SYN, ACK and whether it is for an exit node. The KCP and QUIC connectors have acceptance tests of their own.
- Concurrency of the packet filter: one packet at a time, one live processor; hot reload with shared limiters and the unsynchronised counter updates are not modelled. Map operations on a key are atomic and memory is sequentially consistent everywhere.
- The bucket of a rate limiter inside the packet filter is its token count between refills; `TokenBucket` has the protocol behind it.
- Floating point: refill amounts are exact integers rounded down once; the health percentage is left out.
- TokenBucket, TcpNat and WaitProtocol are state machines over values; updating shared memory in place and aliasing of entries behind reference counts are not captured.
- The accept loop breaking off when its tasks are dropped, and failing `accept` calls, which leave no trace in the maps.
- Uniqueness of identifiers is assumed where entries are created; every instance is watched, there is one waiter, and start calls of one identifier do not overlap.
- The moment between the start of an instance's thread and its insertion into the map: the model has both in one step. Nothing is lost, since until then nobody else knows the instance, and a thread that has ended by then is inserted with its flag cleared and its notification stored, as if it ended right after.
- Blocking on the lock of a shard that is being scanned: the model lets starts and deletions go on there, which only adds runs.
- Starts without a runtime and instances without a stop notifier.
- NatRewrite looks a reply up in the two maps at one moment; that an entry can move from one to the other between the two reads is covered by the assertions of `TcpNat` only.
- The updater of the CIDR tables and a lookup do not overlap; the `allow` list of a proxied network is not used by the code modelled.
- Text forms of addresses and prefixes: an address text of a rule is the address and prefix length written in it, or nothing; the tracking key is a tuple instead of a string; whitespace is the Unicode property.
- Rings before the second day of 1970, where the window of the code would start before time zero.
- Wall-clock times before an earlier check: a run of the health ring has a clock that does not go back.
- Conversion of limiter settings, group lookup, statistics as text, logging, error messages, persistence and the HTTP interface, which would only add easy members.
- Sockets, DNS, STUN, KCP, QUIC, the compressor, the manual connector, the command line, services and the graphical front end.
