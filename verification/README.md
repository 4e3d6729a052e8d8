# BoltConn, modelled and proved

BoltConn is a transparent proxy.  This project models the parts of it that carry strong invariants
and proves them in Dafny 4.11, for all inputs, all runs and all interleavings.  Each `.dfy` file is
one component; objects the program updates in place are classes, what it computes is a function,
and every loop is a loop with its invariants.  `dafny verify dfyconfig.toml` checks everything.

| file | component | main results |
|---|---|---|
| `AbortHandle.dfy` | the lock-free cancellation handle | no panic, no lost cancellation, one owner, bounded work, in every interleaving |
| `DnsTable.dfy` | the fake-IP allocator | address pool partition, shared records, the pool never runs dry, round trip |
| `ProxyGroups.dfy` | group builder and selection | termination, exact success condition, no cycles, all selection walks agree |
| `RuleSet.dfy` | rule compilation | sound always, the exact condition for agreement on all connections, merge is union |
| `Chain.dfy` | proxy chains | wiring, destinations, the exact layouts that are rejected |
| `EvictingLogs.dfy` | capture and connection logs | conservation, bounds, logical indices |
| `SmolStack.dfy` | user-space TCP/IP stack | socket ownership over every run |
| `TcpTuning.dfy` | receive buffer growth | bounds over every run, the price of each growth |
| `ByteStreams.dfy` | streams over channels | no byte lost, repeated or reordered, in any interleaving |
| `Trojan.dfy` | UDP framing | exact round-trip condition, for frames and for lists of frames |
| `BodyCapture.dfy` | bounded body capture | exact outcomes, capture is invisible |
| `TcpNat.dfy` | TCP address translation | which replies are answered and with what, over every run, with the exact condition for shared ports |

## How the program is modelled

- Threads of the cancellation handle are program counters; one atomic operation, one `abort` call or
  one publication is one step; a run is any sequence of steps.  There is a single atomic and the
  handle list is published before READY, so steps are taken as sequentially consistent.
- A failed `unwrap`, `unreachable!` or out-of-range access is an explicit outcome, or an expression
  Dafny proves in range.
- Clocks, random ports, resolver answers, socket behaviour and the answers of remote hops are
  parameters.  Clock readings never go back where the program relies on that.
- The iteration order of a hash map is arbitrary: each step picks any remaining key.
- Keyword automata are "some keyword occurs", the radix trie is "longest registered prefix", the IP
  table is "some network contains", a regular expression is the set of names it accepts.  Names are
  ASCII.

## Where the code differs from what one might expect

The model follows the code.

- `flush_expiration` keeps the records older than the threshold and frees the younger ones.
- `evict_until` does not move the logical offset, so only `evict_with` keeps logical indices.
- `get_range_copy` reports the first visible index, not the clamped start.
- A longer registered host hides a shorter suffix, whether or not it matches itself
  (`RuleSet.NestedSuffixesLose`); `RuleSet.TrieExactIff` is the exact condition.
- `RuleSet::matches` consults neither inbound nor source-CIDR nor local-CIDR rules
  (`RuleSet.SourceRuleIsIgnored`); `RuleSet.InterpreterExactIff` is the exact condition.
- A reference to a declared group without members panics (`ProxyGroups.EmptyReferenceInput`);
  `ProxyGroups.DispatchingBuilder.Build` has the exact condition.
- Spawning an empty chain panics, and a final HTTP or SSH hop reached in datagram mode relays nothing
  (`Chain.Spawn`).
- A connection attempt whose sender is gone is not closed; it waits for the SYN timeout, because a
  send is only tried on a socket that can send (`SmolStack.UnansweredIsPurged`).
- An empty write through `DuplexChan` reads as an end of stream (`ByteStreams.DuplexChan.PollRead`).
- The separator of a Trojan frame is written in native byte order: LF CR on little-endian machines.
  The receiver skips any two bytes, so the round trip holds in both orders.
- A receive buffer that is too small leaves the payload in the Trojan stream, where the next receive
  takes it for a header (`Trojan.FrameRoundTrip`).
- A TCP record with all directions closed is taken over by a new connection of the same flow without
  being reopened, and the next flush drops it (`TcpNat.SessionManager.RegisterThenFlush`).

## Model

| member | source | states |
|---|---|---|
| `AbortHandle.EventKeepsInv` | boltconn/src/proxy/context.rs:178-261 | every atomic step of every `cancel` and `fulfill`, and every new call, keeps the invariant that ties each program point to the state, the published list and the abort log |
| `AbortHandle.AdvanceKeepsAllOk` | boltconn/src/proxy/context.rs:178-261 | a step by one thread leaves what every other thread relies on intact |
| `AbortHandle.AdvanceKeepsUnique` | boltconn/src/proxy/context.rs:178-261 | a step never creates a second owner of CANCELLING nor a second accepted `fulfill` |
| `AbortHandle.NoPanicAndSingleOwner` | boltconn/src/proxy/context.rs:178-261 | in every run none of the three `unwrap`s fails and `unreachable!` is not reached; CANCELLING and FULFILL_CHANGING hold exactly while one thread owns them, and never two |
| `AbortHandle.StateNeverDecreases` | boltconn/src/proxy/context.rs:155-161 | over every run and every continuation of it the numeric state never decreases |
| `AbortHandle.NoCancellationLost` | boltconn/src/proxy/context.rs:178-261 | on a handle from `new`, once some `cancel` has returned, a `fulfill` was accepted and nobody is busy cancelling, the abort log is exactly the list handed to that `fulfill` when it was called: every task aborted once, in order, whatever the interleaving and whatever other calls are under way |
| `AbortHandle.AllReturnedNothingLost` | boltconn/src/proxy/context.rs:178-261 | in particular once all calls have returned |
| `AbortHandle.OnlyCancelledTasksAbort` | boltconn/src/proxy/context.rs:178-261 | at every moment the abort log is a prefix of the list handed to the accepted `fulfill`, and empty unless some `cancel` was called |
| `AbortHandle.ThreadIsItsCall` | boltconn/src/proxy/context.rs:230-261 | in every run a thread is the call its first start event made, with the tasks handed over in it, and there is no other thread |
| `AbortHandle.CallsStartAtTheTop` | boltconn/src/proxy/context.rs:178-240 | a new call starts at its first instruction and changes nothing yet |
| `AbortHandle.ExactlyOneFulfillAccepted` | boltconn/src/proxy/context.rs:230-261 | at most one `fulfill` is ever accepted; when all calls on a handle from `new` have returned one was accepted exactly if one was called; a placeholder accepts none |
| `AbortHandle.CancelRereadsOnlyAfterProgress` | boltconn/src/proxy/context.rs:179-198 | `cancel` goes back to its load only after the state left INIT or while a `fulfill` owes its READY step |
| `AbortHandle.SpinEndsAfterTwoSteps` | boltconn/src/proxy/context.rs:253-260 | two steps of the `fulfill` a `cancel` spins on end the spin |
| `AbortHandle.WorkIsBounded` | boltconn/src/proxy/context.rs:178-261 | spins apart, every call takes at most (longest list + 6) steps, however the others are scheduled |
| `AbortHandle.WorkIsMovingOn` | boltconn/src/proxy/context.rs:178-261 | what is counted are exactly the steps that move the thread on |
| `AbortHandle.WorkAdds` | boltconn/src/proxy/context.rs:178-261 | and they add up over a run |
| `DnsTable.DnsTable.constructor` | boltconn/src/network/dns/dns_table.rs:27-39 | all 65534 hosts of 198.19.0.0/16 are free, handed out from 198.19.0.1 up; the tables are empty and linked |
| `DnsTable.DnsTable.QueryByIp` | boltconn/src/network/dns/dns_table.rs:55-61 | finds the record of the address and refreshes it in both indexes, nothing else |
| `DnsTable.DnsTable.Sweep` | boltconn/src/network/dns/dns_table.rs:108-114 | for every iteration order: exactly the failing records leave, their addresses return to the free list, pool and table still partition the addresses |
| `DnsTable.DnsTable.RetainByTime` | boltconn/src/network/dns/dns_table.rs:103-115 | both indexes keep exactly the same records, all invariants hold afterwards |
| `DnsTable.DnsTable.FlushExpiration` | boltconn/src/network/dns/dns_table.rs:103-115 | keeps exactly the records whose age exceeds the threshold (as written), and never shrinks the free list |
| `DnsTable.DnsTable.ScanOldest` | boltconn/src/network/dns/dns_table.rs:118-131 | for every iteration order the bound is the oldest of exactly the 30% of records scanned, or now |
| `DnsTable.DnsTable.FlushOlder` | boltconn/src/network/dns/dns_table.rs:118-143 | no survivor is older than an evicted record, a non-empty table loses at least one record, and the free list is not empty afterwards |
| `DnsTable.DnsTable.MakeRoom` | boltconn/src/network/dns/dns_table.rs:65-70 | after the guard an address is free even if the pool was exhausted, so `pop().unwrap()` cannot fail; exactly which records are left: all without a shortage, else those the flush for expiration keeps, and if fewer than 1024 addresses are free then, of those the ones newer than the oldest of the 30% scanned |
| `DnsTable.DnsTable.FlushStale` | boltconn/src/network/dns/dns_table.rs:103-115 | a flush for expiration leaves exactly the time stamps beyond the threshold, and the pool less those free |
| `DnsTable.DnsTable.FlushNewer` | boltconn/src/network/dns/dns_table.rs:118-143 | `flush_older` leaves exactly the time stamps newer than the oldest of the 30% scanned, and never all of them |
| `DnsTable.PoolSize` | boltconn/src/network/dns/dns_table.rs:26-40 | free and used addresses always add up to the 65534 of the pool |
| `DnsTable.DnsTable.FindOrAllocate` | boltconn/src/network/dns/dns_table.rs:77-95 | a known name keeps its record, refreshed, and a new one takes the last free address; no other record and no other address is touched |
| `DnsTable.DnsTable.Allocate` | boltconn/src/network/dns/dns_table.rs:78-90 | a new name gets the last free address, which no other record has; all else stays |
| `DnsTable.DnsTable.QueryByDomainName` | boltconn/src/network/dns/dns_table.rs:63-96 | returns the refreshed record of the name without its trailing dot; of the old records exactly those are left that the flushes due leave, under their old time stamps; without a flush the tables and the free list change by that name only |
| `DnsTable.DnsTable.RunOps` | boltconn/src/network/dns/dns_table.rs:55-115 | any run of queries and flushes keeps the partition and the shared records; whether it flushes is told beforehand, exactly, from the free list and the known names; if not, every name keeps its record and the known names are those asked for |
| `DnsTable.RoomEnough` | boltconn/src/network/dns/dns_table.rs:63-70 | queries do not flush while there is one free address for each above the low-water mark |
| `DnsTable.DnsTable.RoundTrip` | boltconn/src/network/dns/dns.rs:94-108 | `fake_ip_to_domain` inverts `domain_to_fake_ip`, up to the dots stripped, over any operations that do not flush, a condition on the table and the operations beforehand; one free address per operation above the low-water mark is enough, and then a name without a trailing dot, or without its one trailing dot, comes back itself |
| `DnsTable.DnsTable.FakeIpToDomain` | boltconn/src/network/dns/dns.rs:99-108 | answers exactly for the addresses of registered names, with that name |
| `DnsTable.RoundTripExact` | boltconn/src/network/dns/dns_table.rs:72-76 | the round trip gives the registered name exactly if the query did not end in two dots |
| `DnsTable.StripDotMeaning` | boltconn/src/network/dns/dns_table.rs:72-76 | one trailing dot goes, and nothing else |
| `DnsTable.SameNameIff` | boltconn/src/network/dns/dns_table.rs:72-76 | two queries are for one name exactly if they are equal but for one trailing dot |
| `DnsTable.DnsTable.TwoQueries` | boltconn/src/network/dns/dns_table.rs:63-96 | with addresses enough, two queries get one address exactly if the names are the same but for one trailing dot |
| `DnsTable.PoolIsTheSubnet` | boltconn/src/network/dns/dns_table.rs:29-32 | the pool is 198.19.0.1 up to 198.19.255.254 |
| `DnsTable.NamesInjective` | boltconn/src/network/dns/dns_table.rs:85-88 | distinct names never share an address |
| `ProxyGroups.DispatchingBuilder.ParseGroup` | boltconn/src/dispatch/dispatching.rs:605-747 | terminates on every configuration; on success restores `queued_groups`, only adds entries, keeps the reference graph ranked and every entry as declared; succeeds on every buildable declaration |
| `ProxyGroups.DispatchingBuilder.ParseChain` | boltconn/src/dispatch/dispatching.rs:630-656 | a chain is registered with its members reversed, member i the i-th declared from the end, each of strictly smaller rank |
| `ProxyGroups.DispatchingBuilder.ParseMembers` | boltconn/src/dispatch/dispatching.rs:657-746 | a group is registered with listed then provided members unless it has none, in which case it is skipped |
| `ProxyGroups.DispatchingBuilder.RegisterGroup` | boltconn/src/dispatch/dispatching.rs:734-744 | the new group starts on its saved member, else on its first, and the graph stays ranked |
| `ProxyGroups.DispatchingBuilder.ParseAll` | boltconn/src/dispatch/dispatching.rs:633-683 | the parsed members carry exactly the referenced names in order and are all registered |
| `ProxyGroups.DispatchingBuilder.ParseOne` | boltconn/src/dispatch/dispatching.rs:751-795 | yields a registered entry of that name; the `unwrap` fails only on a group without members that a declaration refers to, and does so on a reference to one |
| `ProxyGroups.DispatchingBuilder.ParseReferenced` | boltconn/src/dispatch/dispatching.rs:765-793 | the reference is parsed while its referrer is queued, and the queue is restored; it panics only on a declared group without members that a declaration refers to |
| `ProxyGroups.DispatchingBuilder.Provided` | boltconn/src/dispatch/dispatching.rs:686-728 | succeeds exactly when every provider exists with a valid filter, and yields the accepted names in order |
| `ProxyGroups.DispatchingBuilder.Build` | boltconn/src/dispatch/dispatching.rs:169-183 | on success every declared name is registered or was skipped for being empty, groups with the listed members first and chains the other way round; a well-declared configuration with a ranking never gives an error, and panics if and only if some declaration refers to a group without members; otherwise it builds |
| `ProxyGroups.ReversedAt` | boltconn/src/dispatch/dispatching.rs:633 | the members of a chain are taken from the last to the first |
| `ProxyGroups.AcceptedConcat` | boltconn/src/dispatch/dispatching.rs:695-711 | a filter goes through a provider's names one by one, in order |
| `ProxyGroups.AcceptedOne` | boltconn/src/dispatch/dispatching.rs:695-711 | and keeps exactly those it accepts |
| `ProxyGroups.ProvidedConcat` | boltconn/src/dispatch/dispatching.rs:686-728 | providers contribute one after the other |
| `ProxyGroups.ProvidedOne` | boltconn/src/dispatch/dispatching.rs:686-712 | each what its filter accepts, or all its proxies without a filter |
| `ProxyGroups.RoughlyValidMeaning` | boltconn/src/dispatch/dispatching.rs:627-629 | a declaration is a chain or a group, not both and not neither |
| `ProxyGroups.GroupStartsOn` | boltconn/src/dispatch/dispatching.rs:679-742 | a group starts on the last member of the saved name, else on its first |
| `ProxyGroups.LastIsLast` | boltconn/src/dispatch/dispatching.rs:679-742 | of several members of the saved name the last is taken |
| `ProxyGroups.FirstIsFirst` | boltconn/src/dispatch/proxy.rs:173-197 | of several members of the wanted name the first is selected |
| `ProxyGroups.BuiltRefersToNoEmpty` | boltconn/src/dispatch/dispatching.rs:787-793 | a successful build met no reference to a group without members |
| `ProxyGroups.EmptyReferenceInput` | boltconn/src/dispatch/dispatching.rs:729-732 | the smallest configuration that meets the condition of the panic |
| `ProxyGroups.BuiltIsBuildable` | boltconn/src/dispatch/dispatching.rs:605-795 | success happens on buildable configurations only: the build's own order is the ranking |
| `ProxyGroups.EdgeFalls` | boltconn/src/dispatch/dispatching.rs:605-795 | after a successful build the rank strictly falls along every declared group or chain reference |
| `ProxyGroups.NoDeclaredCycle` | boltconn/src/dispatch/dispatching.rs:605-795 | so a successful build excludes every declared cycle, of any length |
| `ProxyGroups.ProxyGroup.SetSelection` | boltconn/src/dispatch/proxy.rs:173-197 | selects a member of the wanted name exactly if there is one, else changes nothing |
| `ProxyGroups.BuiltIsWalkable` | boltconn/src/dispatch/proxy.rs:143-171 | every group of a built table points at one of its members |
| `ProxyGroups.SelectionFalls` | boltconn/src/dispatch/proxy.rs:143-148 | one hop of the walk reaches a registered entry of smaller rank, so the walks terminate |
| `ProxyGroups.WalksAgree` | boltconn/src/dispatch/proxy.rs:143-171 | `get_proxy`, `get_proxy_and_interface`, `get_impl` and `selected_instance_name` end at the same registered leaf, with the interface of the innermost group on the path |
| `ProxyGroups.PathFollowsSelections` | boltconn/src/dispatch/proxy.rs:205-222 | the groups visited are each the selection of the one before |
| `ProxyGroups.PathHasNoRepeats` | boltconn/src/dispatch/proxy.rs:143-171 | no group is visited twice |
| `ProxyGroups.SetGroupSelection` | boltconn/src/dispatch/dispatching.rs:82-89 | succeeds exactly for a member of a registered group and touches that group only |
| `ProxyGroups.RunSelections` | boltconn/src/dispatch/dispatching.rs:82-89 | after any sequence of requests every group selects the member chosen by the last request that names one of its members, or its old one; each request succeeded exactly when it named a member of a registered group |
| `RuleSet.EntryIsRule` | boltconn/src/dispatch/rule.rs:80-99 | a registered host entry means what the DOMAIN or DOMAIN-SUFFIX rule means |
| `RuleSet.TrieSound` | boltconn/src/common/host_matcher.rs:12-37 | the matcher accepts a host only if some registered entry matches it |
| `RuleSet.LastEntryDecides` | boltconn/src/common/host_matcher.rs:69-71 | of several entries with one key the last decides |
| `RuleSet.UnshadowedComplete` | boltconn/src/common/host_matcher.rs:12-37 | without shadowed suffixes the matcher accepts every host some entry matches |
| `RuleSet.ShadowedLosesHost` | boltconn/src/common/host_matcher.rs:14-35 | every shadowed suffix loses a host, which is constructed |
| `RuleSet.TrieExactIff` | boltconn/src/common/host_matcher.rs:12-37 | the matcher agrees with its entries on every host if and only if no suffix entry is shadowed |
| `RuleSet.PrefixFreeIsUnshadowed` | boltconn/src/common/host_matcher.rs:69-71 | prefix-free keys of one type each are never shadowed |
| `RuleSet.NestedSuffixesLose` | boltconn/src/common/host_matcher.rs:12-37 | suffixes b and a.b: the host xa.b is lost |
| `RuleSet.TruncateKeepsContains` | boltconn/src/dispatch/ruleset.rs:199-204 | clearing the host bits of a network does not change what it contains |
| `RuleSet.TruncateClears` | boltconn/src/dispatch/ruleset.rs:199-204 | and leaves none behind the prefix |
| `RuleSet.ContainsMeaning` | boltconn/src/dispatch/rule.rs:107-109 | a network contains an address exactly if they are of one family and agree bit by bit in the leading prefix |
| `RuleSet.ContainsCorners` | boltconn/src/dispatch/rule.rs:107-109 | a prefix of full length contains its base only, an empty one the whole family |
| `RuleSet.TenSlashEight` | boltconn/src/dispatch/rule.rs:107-109 | 10.0.0.0/8 contains 10.1.2.3 and not 11.1.2.3 |
| `RuleSet.AddressRanges` | boltconn/src/dispatch/rule.rs:107-109 | addresses have 32 and 128 bits |
| `RuleSet.SubstringMeaning` | boltconn/src/dispatch/rule.rs:100-106 | a keyword matches exactly the names that hold it somewhere |
| `RuleSet.SuffixMeaning` | boltconn/src/dispatch/rule.rs:87-99 | DOMAIN-SUFFIX matches the name and every name below it |
| `RuleSet.AddressRulesMeaning` | boltconn/src/dispatch/rule.rs:78-176 | which address and which port the address and port rules look at |
| `RuleSet.InboundMeaning` | boltconn/src/dispatch/rule.rs:78-176 | an inbound rule matches its kind of inbound with the user and port it names |
| `RuleSet.ProcessMeaning` | boltconn/src/dispatch/rule.rs:78-176 | process rules look at name, path and command line of the process, and match nothing without one |
| `RuleSet.NotMeaning` | boltconn/src/dispatch/rule.rs:78-176 | NOT negates, and the constants are constant |
| `RuleSet.AndConcat` | boltconn/src/dispatch/rule.rs:78-176 | AND over a list is the conjunction over its parts |
| `RuleSet.OrConcat` | boltconn/src/dispatch/rule.rs:78-176 | OR over a list is the disjunction over its parts |
| `RuleSet.AddRuleMeaning` | boltconn/src/dispatch/ruleset.rs:173-249 | one more rule widens the tables by exactly what the interpreter says it matches, if its kind is consulted, else by nothing |
| `RuleSet.NewBuilder` | boltconn/src/dispatch/ruleset.rs:170-252 | fails exactly on a payload with a rule that has no table |
| `RuleSet.CompileMeaning` | boltconn/src/dispatch/ruleset.rs:170-252 | the tables of any payload mean the disjunction of its consulted rules |
| `RuleSet.CompileSound` | boltconn/src/dispatch/ruleset.rs:46-99 | for every payload, what the rule set matches some payload rule matches in the interpreter |
| `RuleSet.CompileExact` | boltconn/src/dispatch/ruleset.rs:46-99 | with no shadowed suffix the rule set matches exactly what some consulted rule matches |
| `RuleSet.ShadowedLosesConnection` | boltconn/src/dispatch/ruleset.rs:46-99 | a shadowed suffix costs a whole connection, which is constructed |
| `RuleSet.CompileExactIff` | boltconn/src/dispatch/ruleset.rs:125-293 | host-rule payloads are compiled exactly on all connections if and only if no suffix is shadowed |
| `RuleSet.MergeSound` | boltconn/src/dispatch/ruleset.rs:256-270 | merging matches nothing beyond the union |
| `RuleSet.MergeExact` | boltconn/src/dispatch/ruleset.rs:256-270 | with no shadowed suffix in the merged hosts, merge then build matches exactly the union |
| `RuleSet.MergeHostsExactIff` | boltconn/src/dispatch/ruleset.rs:256-270 | two host-rule payloads: merge then build matches the union on all connections if and only if no suffix is shadowed in the merged hosts |
| `RuleSet.LostHost` | boltconn/src/common/host_matcher.rs:12-37 | a host is lost only to a longer registered key or to its own key registered as exact |
| `RuleSet.UncoveredLosesHost` | boltconn/src/common/host_matcher.rs:12-37 | a loss the keywords do not cover shows on a constructed host without a keyword |
| `RuleSet.BuildExactIff` | boltconn/src/dispatch/ruleset.rs:46-99 | for any tables, of rules of all kinds, the built rule set agrees with them on all connections if and only if the ports match everything or every shadowed suffix is made up for by the keywords |
| `RuleSet.MixedExactIff` | boltconn/src/dispatch/ruleset.rs:125-293 | payloads of all kinds of rules are compiled exactly, on all connections, against their consulted rules if and only if that condition holds |
| `RuleSet.MergeExactIff` | boltconn/src/dispatch/ruleset.rs:256-270 | and merge then build matches exactly the union of the consulted rules of two such payloads if and only if it holds of the merged tables |
| `RuleSet.SourceRuleIsIgnored` | boltconn/src/dispatch/ruleset.rs:46-99 | a payload of one source-address rule matches nothing when compiled, also what the rule matches |
| `RuleSet.UnconsultedLosesInfo` | boltconn/src/dispatch/ruleset.rs:46-99 | every inbound, source-address or local-address rule loses a connection it matches, which is constructed, unless the rule set matches everything |
| `RuleSet.InterpreterExactIff` | boltconn/src/dispatch/ruleset.rs:46-99 | a payload is compiled exactly, on all connections and against the interpreter on all its rules, if and only if every rule is of a consulted kind and shadowing does no harm, or the rule set matches everything anyway |
| `RuleSet.MergeInterpreterExactIff` | boltconn/src/dispatch/ruleset.rs:256-270 | the same for two merged payloads |
| `Chain.CreateChain` | boltconn/src/proxy/dispatcher.rs:168-209 | accepts exactly the chains whose entries are outbounds and, the last apart, have a server; entry 0 dials the target, every other one the server address of its predecessor |
| `Chain.Link` | boltconn/src/adapter/chain.rs:44-101 | the container holding the inbound is never empty, and the next hop's container gets the far end of the channel this hop was given, of the right kind |
| `Chain.Dial` | boltconn/src/adapter/mod.rs:141-166 | with the channels the loop makes, a hop refuses exactly if it takes streams only and is reached in datagram mode |
| `Chain.Round` | boltconn/src/adapter/chain.rs:40-103 | one round keeps the wiring invariant and refuses exactly as the layout says |
| `Chain.Spawn` | boltconn/src/adapter/chain.rs:27-120 | panics exactly on an empty chain; all calls are in place and wired; a shape is rejected exactly at a non-final HTTP, SOCKS5 or SSH hop in datagram mode; a final HTTP or SSH hop in datagram mode is a dead end; when all hops ask for the next one, it connects exactly if there is neither |
| `Chain.AllPassed` | boltconn/src/adapter/chain.rs:109-118 | reaching the last hop means no stream-only hop was stuck |
| `Chain.WiringMeaning` | boltconn/src/adapter/chain.rs:44-101 | each hop receives what the hop before it sends, and the other way round, over channels of one kind |
| `Chain.ShapesTaken` | boltconn/src/adapter/http.rs:122-160 | the kinds of channels each adapter takes and refuses |
| `Chain.AnswersGiven` | boltconn/src/adapter/chain.rs:50-99 | only SSH and WireGuard may answer that the next hop is not needed, or fail |
| `Chain.Connect` | boltconn/src/proxy/dispatcher.rs:168-209 | every chain `create_chain` accepts can be spawned, and only those |
| `Chain.ChannelsNotShared` | boltconn/src/adapter/mod.rs:71-83 | no two hops share a channel |
| `EvictingLogs.EvictableVec.EvictWith` | boltconn/src/common/evictable_vec.rs:43-52 | evicted batch then memory are the old contents, exactly `left` stay at most, logical indices are preserved |
| `EvictingLogs.EvictableVec.EvictUntil` | boltconn/src/common/evictable_vec.rs:56-74 | exactly the longest prefix satisfying the predicate goes; the offset does not move |
| `EvictingLogs.HttpCapturer.Push` | boltconn/src/proxy/context.rs:666-677 | history grows by the element; evicted batches then memory equal the history; memory is cut to keep exactly when it was past keep + grace, so it never exceeds keep + grace + 1 |
| `EvictingLogs.HttpCapturer.GetCopy` | boltconn/src/proxy/context.rs:679-686 | returns the history from the reported index on |
| `EvictingLogs.HttpCapturer.GetRangeCopy` | boltconn/src/proxy/context.rs:688-714 | returns exactly the history slice from the clamped start, never out of range; the reported index is the first visible one, which is the slice's own exactly when the start was not beyond it |
| `EvictingLogs.HttpCapturer.Drop` | boltconn/src/proxy/context.rs:731-739 | with a database the whole history has been written, in order |
| `EvictingLogs.ContextManager.RetireDone` | boltconn/src/proxy/context.rs:485-494 | exactly the finished connections leave the active table, in any iteration order |
| `EvictingLogs.ContextManager.Trim` | boltconn/src/proxy/context.rs:495-504 | past the grace threshold exactly `log_limit` connections stay, the oldest departures go |
| `EvictingLogs.ContextManager.Push` | boltconn/src/proxy/context.rs:456-461 | each pushed connection is active, inactive or evicted, never two; it leaves active exactly when done; eviction is first in first out; exactly log_limit stay inactive past log_limit + 5, and all of them otherwise |
| `EvictingLogs.ContextManager.Drop` | boltconn/src/proxy/context.rs:508-519 | with a database every connection ever pushed is written exactly once |
| `EvictingLogs.MergeDistinct` | boltconn/src/proxy/context.rs:508-519 | the three lists written have no connection in common |
| `SmolStack.HandlesDistinct` | boltconn/src/transport/smol.rs:402-573 | handles of all tasks are pairwise distinct and are exactly the handles in the socket set |
| `SmolStack.PollNext` | boltconn/src/transport/smol.rs:576-604 | a task's turn touches no other task's socket, whatever the order of the turns |
| `SmolStack.TurnMeaning` | boltconn/src/transport/smol.rs:576-604 | a half-close deadline never moves, a new one is thirty seconds away and is set exactly if one direction is shut and the other in use; only a failed send shuts the sending side, only an abort cancels |
| `SmolStack.HalfClosedIsPurged` | boltconn/src/transport/smol.rs:593-648 | a socket that stays half closed is purged exactly from thirty seconds after its first turn as such |
| `SmolStack.PurgeSparesTheLiving` | boltconn/src/transport/smol.rs:633-654 | a closed socket is purged, and one in use in both directions is not |
| `SmolStack.UnansweredIsPurged` | boltconn/src/transport/smol.rs:576-654 | a turn leaves an unanswered connection attempt as it is, even if its sender is gone; it is purged exactly when more than thirty seconds have passed since its start |
| `SmolStack.SmolStack.FreeSlot` | boltconn/src/transport/smol.rs:479-480 | a new socket gets an unused slot |
| `SmolStack.SmolStack.PickPort` | boltconn/src/transport/smol.rs:410-432 | the requested port if free, else the first free draw; fails exactly when none is free |
| `SmolStack.SmolStack.OpenTcp` | boltconn/src/transport/smol.rs:402-480 | on success exactly one task and one socket are added; on failure nothing changes, so no socket leaks; succeeds exactly if a port is free, an address matches and the socket connects, and each error has its exact condition |
| `SmolStack.SmolStack.OpenUdp` | boltconn/src/transport/smol.rs:492-573 | the same for datagram sockets |
| `SmolStack.SmolStack.PollAllTcp` | boltconn/src/transport/smol.rs:576-604 | every task has exactly one turn on its own socket, whatever the order and the clock at each turn; no lookup misses; exactly the tasks whose send was aborted are cancelled |
| `SmolStack.SmolStack.PollUdp` | boltconn/src/transport/smol.rs:606-631 | closes exactly on an abort or on thirty idle seconds after the sender left |
| `SmolStack.SmolStack.PurgeInvalidTcp` | boltconn/src/transport/smol.rs:633-654 | exactly the closed, half-closed too long or unanswered tasks go, each with its socket, and exactly those are cancelled |
| `SmolStack.SmolStack.PurgeTimeoutUdp` | boltconn/src/transport/smol.rs:656-666 | exactly the tasks idle too long go, each with its socket, and exactly those are cancelled |
| `SmolStack.SmolStack.Step` | boltconn/src/transport/smol.rs:384-666 | one operation of a run: what it is for, and that an attempt the network does not answer is as it was or gone after its time limit |
| `SmolStack.SmolStack.Run` | boltconn/src/transport/smol.rs:384-666 | after any run the handles are distinct, of the right kind and exactly those in the socket set; and an attempt that is never answered stays until the first purge more than thirty seconds after its start, and is gone after it |
| `TcpTuning.TcpTuning.IncreaseTcpRevBuf` | boltconn/src/transport/smol.rs:53-101 | when and by how much a buffer is to grow, both directions; the round-trip estimate only falls, and exactly when a whole buffer arrived early; `recent_business` stays at most 8 |
| `TcpTuning.Receiver.Received` | boltconn/src/transport/smol.rs:211-231 | grows exactly when a window ends that was used well enough and the socket allows it; keeps the capacity on the ladder 128K, 256K, 512K, 1M, 2M, 3M, 4M, accumulated bytes below it, and pays seven busy windows per step above 1 MiB, also when a resize fails |
| `TcpTuning.RunClimbs` | boltconn/src/transport/smol.rs:53-101 | over any run of receipts the capacity stays on the ladder and never shrinks |
| `TcpTuning.LadderInBytes` | boltconn/src/transport/smol.rs:44-51 | the capacities in bytes |
| `TcpTuning.Receiver.Run` | boltconn/src/transport/smol.rs:43-111 | over any run the capacities are those of the tuning rules, never shrink, never exceed 4 MiB and grow at most six times; n growths beyond the third took 7n of the run's busy windows |
| `ByteStreams.ReadBuf.Fill` | boltconn/src/common/duplex_chan.rs:68-81 | copies what fits and keeps exactly the rest |
| `ByteStreams.ReadConserves` | boltconn/src/common/duplex_chan.rs:66-98 | a read of any size delivers a prefix of the stream and leaves the rest |
| `ByteStreams.EnoughReadsDeliverAll` | boltconn/src/common/duplex_chan.rs:66-98 | as many reads with some room as there are bytes and chunks deliver the whole stream, whatever the chunk and buffer sizes |
| `ByteStreams.DuplexChan.PollWrite` | boltconn/src/common/duplex_chan.rs:29-49 | pending exactly when full, error exactly when closed, else the whole buffer is queued |
| `ByteStreams.DuplexChan.PollRead` | boltconn/src/common/duplex_chan.rs:61-101 | delivers as much of the head chunk as fits, keeps the rest and conserves the stream; pending exactly when nothing is there; an apparent end of stream exactly at the real end or at an empty chunk |
| `ByteStreams.OneStepConserves` | boltconn/src/common/duplex_chan.rs:28-101 | what one operation delivers and what it adds balance in both directions; a read delivers at most its room and is pending only when nothing is there |
| `ByteStreams.DuplexConserves` | boltconn/src/common/duplex_chan.rs:28-101 | any interleaving of reads and writes at both ends: what the reads delivered, then what is pending and queued, are what was there and the accepted writes, in order, in both directions |
| `ByteStreams.DuplexRun` | boltconn/src/common/duplex_chan.rs:28-101 | over any interleaving, also when an end goes away midway, each operation finds the pipe as the earlier ones left it, and the bytes are conserved in both directions |
| `ByteStreams.AfterLeaving` | boltconn/src/common/duplex_chan.rs:39-97 | once an end has left, writes towards it are refused, and the other end reads what is left and then the end of the stream, never pending |
| `ByteStreams.AsyncWsStream.PollRead` | boltconn/src/common/async_ws_stream.rs:25-70 | delivers as much of the head message as fits and conserves the payload; fails exactly behind the payload, at a non-binary item or the end, once all of it is delivered |
| `ByteStreams.AsyncWsStream.ReadMany` | boltconn/src/common/async_ws_stream.rs:25-70 | reads of any sizes deliver exactly what they take from the payload in order, and fail exactly if one of them finds all of it delivered |
| `ByteStreams.TcpConnTask.SendChunk` | boltconn/src/transport/smol.rs:165-174 | a partial send keeps exactly the unsent rest of the chunk |
| `ByteStreams.TcpConnTask.TrySend` | boltconn/src/transport/smol.rs:161-195 | under arbitrary partial sends bytes are conserved unless a send fails, which loses the rest of one chunk; it stops only when full or empty, and reports a disconnection only after everything was sent |
| `ByteStreams.TcpConnTask.ServeAll` | boltconn/src/transport/smol.rs:161-195 | over any run of arrivals, drains and turns without a failed send, sent then unsent bytes are those handed over, in order, and after a turn exactly as many have been sent as there ever was room for; it aborts exactly if a send failed |
| `Trojan.AddrLen` | boltconn/src/transport/trojan.rs:86-92 | equals the number of bytes `extend_data` emits |
| `Trojan.ExtendData` | boltconn/src/transport/trojan.rs:65-84 | appends the address format: tag, address, port in network order; a domain's length is cut to one byte |
| `Trojan.EncapsuleUdpPacket` | boltconn/src/transport/trojan.rs:161-169 | every byte of the frame by its place: type, address, port and length with the high byte first, the separator in native order, the payload; the reserved capacity is exactly the size |
| `Trojan.Reader.ReadAddr` | boltconn/src/transport/trojan.rs:207-245 | reads exactly what the address grammar says, within the 256-byte buffer |
| `Trojan.Reader.RecvFrom` | boltconn/src/transport/trojan.rs:201-262 | agrees with the frame grammar on every stream: result, buffer contents, bytes left, and each error |
| `Trojan.AddrRoundTrip` | boltconn/src/transport/trojan.rs:65-84 | decoding an encoded address gives it back and consumes exactly its bytes |
| `Trojan.ParsedIsRepresentable` | boltconn/src/transport/trojan.rs:201-262 | the receiver never yields a packet the frame format cannot carry |
| `Trojan.FrameRoundTrip` | boltconn/src/transport/trojan.rs:161-262 | a frame followed by anything is received as its packet, consuming exactly the frame, if and only if the domain has at most 255 bytes, the payload at most 65535 and fits the buffer, and IPv6 flow and scope are zero; a payload that does not fit stays in the stream |
| `Trojan.ReceivedFit` | boltconn/src/transport/trojan.rs:201-262 | every packet of every received sequence is representable and fits the buffer |
| `Trojan.FramesRoundTrip` | boltconn/src/transport/trojan.rs:161-262 | any list of frames is received in order with nothing beyond consumed, if and only if every packet meets that condition |
| `Trojan.Relay` | boltconn/src/transport/trojan.rs:191-262 | sending a list and receiving it back returns the list and leaves what follows |
| `BodyCapture.OneFate` | boltconn/src/intercept/intercept_modifier.rs:93-149 | a body is whole, crosses the limit or stops at a non-data frame: only one of these, at one place |
| `BodyCapture.TakeFrames` | boltconn/src/intercept/intercept_modifier.rs:93-149 | the reader finds that fate and leaves exactly the unread frames |
| `BodyCapture.ReadAtMost` | boltconn/src/intercept/intercept_modifier.rs:93-149 | `Full` exactly for all-data bodies of at most the limit; `Partial` exactly when the limit is crossed, by less than one frame; an error exactly when a non-data frame comes first |
| `BodyCapture.PartialReadStream.PollNext` | boltconn/src/intercept/intercept_modifier.rs:60-66 | yields what was read, then the inner body, frame by frame |
| `BodyCapture.Rejoin` | boltconn/src/intercept/intercept_modifier.rs:31-36 | the captured prefix as one frame, then the rest, has the bytes of the original |
| `BodyCapture.IntoBody` | boltconn/src/intercept/intercept_modifier.rs:26-39 | what the consumer of each kind of result sees |
| `BodyCapture.CaptureAndForward` | boltconn/src/intercept/intercept_modifier.rs:25-149 | for all frames and limits, if reading does not fail the consumer gets the original bytes and every later frame unchanged |
| `TcpNat.RecordIsFirst` | boltconn/src/proxy/manager.rs:33-51 | the record of a port is the first packet of the latest run to one destination |
| `TcpNat.RecordIsLastIff` | boltconn/src/proxy/manager.rs:33-51 | it names the sender of the last packet if and only if that run began with the same sender |
| `TcpNat.RecordOfOneSource` | boltconn/src/proxy/manager.rs:33-51 | with one sender per port it is the last packet |
| `TcpNat.SharedPortMisroutes` | boltconn/src/network/tun_device.rs:229-259 | two hosts with the same port and server: the reply to the second goes to the first |
| `TcpNat.SessionManager.RegisterTcpSession` | boltconn/src/proxy/manager.rs:33-51 | a record is replaced exactly when absent or for another destination, and no other record changes |
| `TcpNat.SessionManager.LookupTcpSession` | boltconn/src/proxy/manager.rs:54-66 | finds the record of the port, whose source has that port |
| `TcpNat.SessionManager.Flush` | boltconn/src/proxy/manager.rs:70-80 | exactly the records with no open direction go |
| `TcpNat.SessionManager.RegisterThenFlush` | boltconn/src/proxy/manager.rs:33-80 | a flush right after a packet drops its record exactly if the same flow was on record with all directions closed |
| `TcpNat.TunDevice.Forward` | boltconn/src/network/tun_device.rs:213-259 | outbound packets get the destination's address with the session port; replies get the reverse of the flow on record, and are dropped without one |
| `TcpNat.TunDevice.Run` | boltconn/src/network/tun_device.rs:229-259 | over any run of packets, closings and flushes, with any local addresses, the table and every answer are those the results below are about |
| `TcpNat.RecordFollowsLast` | boltconn/src/proxy/manager.rs:33-51 | over every run a record lies under its own source port and goes where the last packet from that port went |
| `TcpNat.OnRecordIff` | boltconn/src/proxy/manager.rs:33-80 | a port is on record exactly if it sent a packet since which no flush found its connection closed |
| `TcpNat.RepliesAreAnswered` | boltconn/src/network/tun_device.rs:230-239 | a reply is answered if its port has sent since the last flush |
| `TcpNat.OpenStaysOnRecord` | boltconn/src/proxy/manager.rs:70-72 | if no connection is ever fully closed, a port is on record exactly if it ever sent |
| `TcpNat.RecordBegan` | boltconn/src/proxy/manager.rs:33-51 | every record was made by one packet, which found no record or one to elsewhere, and since which the port sent to one destination only |
| `TcpNat.ReplyExactIff` | boltconn/src/network/tun_device.rs:229-259 | over every run, with any local addresses, a reply is rewritten to the reverse of the most recent flow from its port if and only if the packet that made the record came from the same sender |
| `TcpNat.RepliesReverse` | boltconn/src/network/tun_device.rs:229-259 | with one local address a reply to a live port is answered with the exact reverse of the most recent outbound flow from it, and any other reply is dropped |
| `TcpNat.ReplyRoundTrip` | boltconn/src/network/tun_device.rs:229-259 | the reply to a translated packet, with no flush and nothing sent from its port in between, is answered with the reverse of the packet |

## Left out

- CLI, web and RPC controllers, logging, SQLite, configuration loading and platform calls: plumbing without a hard invariant.
- TLS, scripting, compression, Shadowsocks, SSH and WireGuard cryptography: foreign code.
- The relays `established_tcp` and `established_udp`, and real scheduling: only their channels and the cancellation protocol are modelled.
- Weak memory orderings of the cancellation handle: steps are sequentially consistent.
- Provider behaviours Domain and IpCidr of rule sets, and RULE-SET, GEOIP and ASN rules: the first two only fill the tables the classical payload fills, a nested rule set makes the builder fail, and the builder has no database for the last two.
- Warnings about WireGuard members in several chains (`wg_history`): they change nothing else.
- UDP sessions, UDP packets of the TUN device and byte-level header editing: addresses are abstract.
- The text form of domain names in Trojan frames: a name is its byte string, so a name that is not UTF-8 is outside the model.
- `TrojanRequest::serialize`: it has no decoder here.
- Rounding of floating-point durations and factors: durations are real numbers, and `0.3 * len` is `3 * len / 10`, which agrees for every table the pool allows.
- The loop of `poll_all_udp`: one task's turn is modelled, and any sequence of turns is part of a run.
- RuleSet.BuildExactIff: assumes, like MixedExactIff, MergeExactIff, InterpreterExactIff and MergeInterpreterExactIff, a character that no registered host and no keyword uses, because with every character in use keywords could cover hosts in ways the condition does not see; CompileExactIff and MergeHostsExactIff need no such character.
- ByteStreams.TcpConnTask.ServeAll: states nothing about the bytes after a failed send, because the task is then closed and the rest of a chunk is lost.
