# Phaethon, modelled in Dafny

Phaethon is a proxy and mesh-network program written in Go. This project models the parts of it whose
correctness is hardest to see from one function, and proves what they promise.

- **Proxy groups and via chains** (`ProxyGroups`, `GroupOutcomes`, `GroupSearch`, `ViaChains`). Groups of proxies nest and may
  form cycles. The search for a usable proxy shares one set of visited names over the whole graph. A second
  search answers the same question without that set, and a start-up check makes it safe. Via chains are
  pointers written in place by walk after walk.
- **Rate limiter** (`RateLimiter`).
- **DNS hijacking** (`DnsCodec`, `DnsRoundTrip`, `DnsForwarder`). The parsers and builders work on the bytes of
  a packet, and a table of waiting clients is shared by workers, listener, sweeper and shutdown.
- **Fake IP addresses** (`FakeIpPool`, `FakeIpService`). A circular allocator with a persisted two-way index.
- **Routing tries** (`Addresses`, `RouteTable`, `RouteTrie`, `SuffixTable`, `NodeTrie`). Pointer tries over
  address bits and domain labels, proved against linear scans.
- **Packets** (`Checksum`, `Packets`, `FlowKeys`). Checksums, the time-to-live decrement in place, ICMP
  messages, IP in IP, and the flow key that must not change on the way.
- **Framing and transport** (`Frames`, `FramedConn`, `Transport`). The frame format, the connection that hides
  it behind pooled buffers, and the two-queue receiver.
- **Incremental views** (`ConnJournal`, `JournalOverrun`, `ConnLog`, `RuleStore`, `RuleMatch`, `Masks`). A truncated journal from which
  clients rebuild the live connections, the stored rule list, and first-match rule evaluation over compiled
  arrays.

`Basics`, `Bytes`, `Shifts` and `Dotted` are shared helpers.

Code that updates fields, arrays, pointers or maps in place is a class or a method with loops, proved against
functions and predicates on values; the theorems about runs, round trips and equivalences are lemmas about
those. Concurrent code is a state machine over its atomic steps, and its theorems hold for every interleaving.

What the environment supplies is a parameter: clock readings, the answers of the resolver callbacks (one fixed
snapshot per search), the order in which a map is walked, the parsers of addresses and numbers, and the
moments at which a poll reads.

Some promises hold only under a condition, which an equivalence gives exactly:

- A DNS client is answered at most once if and only if none of its failed writes came after it had left the
  table (`DnsForwarding.AnsweredAtMostOnce`, with a failing run in `LateFailureAnswersTwice`).
- Queries read back if and only if all labels have 1 to 63 bytes (`DnsRoundTrip.QueryRoundTrip`, with a
  failing one in `EmptyDomainIsNotReadBack`).
- A datagram reads back if and only if its payload is within the limit (`Frames.DatagramRoundTrip`).
- The receive error of a transport comes after all data if and only if the data queue is empty when it is taken
  (`Transport.ErrorComesLastExactly`, with a failing run in `ErrorCanOvertakeData`).
- A reordering of rules keeps the store consistent if and only if it is a permutation
  (`RuleStore.ReorderKeepsExactly`, `ReorderCanLoseARule`); the code only checks that each ID exists.
- Loading stored fake addresses gives a consistent pool if and only if those in range are allocatable and
  distinct (`FakeIpPool.LoadIsSoundExactly`, `LoadCanRepeatAnAddress`); the code only checks the range.
- A journal client is right about a connection if and only if its last news was not dropped between a decision
  and its fetch, or what it had before is right (`ConnJournal.ClientRightExactly`, with a failing run in
  `JournalOverrun.OverrunLosesAChange`).
- Replaying the journal gives the live set if and only if, for each connection, the last change made and the
  last one journalled have the same result (`ConnJournal.ReplayAgreesExactly`, with a failing run in
  `OverlappingChangesDiverge`). One owner per connection, which connection records have, is enough
  (`OneOwnerJournalsInOrder`).
- Wrapping a packet that is itself a tunnel keeps its flow hash under every mixing step if and only if both
  packets name the same flow (`FlowKeys.WrappingKeepsEveryHash`, with a failing packet in
  `WrappingATunnelChangesKey`).
- The response builder panics if and only if a label reaches past the capacity of the packet
  (`DnsRoundTrip.PanicsExactly`, with such a packet in `UnacceptedCanPanic`). Its callers parse the query first (mesh/dns.go:494-511,
  586-611), and a parsed query is always answered (`AcceptedIsAnswered`).

`dafny verify dfyconfig.toml` checks the whole project.

## Model

| member | source | states |
|---|---|---|
| ProxyGroups.SubscriptionMembersExact | config/config.go:381-412 | the subscription part of a member list has exactly the candidate nodes, as subscription leaves |
| ProxyGroups.ManualMembersExact | config/config.go:416-429 | the manual part has exactly the names that resolve: as leaves when a proxy has the name, else as groups; others are skipped |
| GroupOutcomes.MembersLayout | config/config.go:381-412 | first the candidate nodes, in order, as subscription leaves, then the manual members |
| GroupOutcomes.ManualMembersAppend | config/config.go:416-429 | the manual members stand in the order of their names |
| ProxyGroups.MembersResolve | config/config.go:354-429 | a listed member has a non-empty name and resolves to one leaf proxy or an existing group |
| ProxyGroups.ReachesLeafStep | config/config.go:559-591 | a group reaches a leaf if and only if it has a selectable leaf or a selectable inner group that reaches one |
| ProxyGroups.ExhaustedStays | config/config.go:559-591 | a walk from a group that a failed search visited meets only visited groups without a leaf, unless it passes a group still on the search stack |
| ProxyGroups.ExhaustedHasNoLeaf | config/config.go:559-591 | when a whole search fails, no visited group reaches a leaf, although none was visited twice |
| ProxyGroups.FailedInnerHasNoLeaf | config/config.go:559-591 | a member whose search failed reaches no leaf at all, if it cannot lead back to the group being searched |
| ProxyGroups.BestPickUnique | config/config.go:754-789 | the least-latency rule with its two fallbacks determines one member |
| GroupOutcomes.SharedHealthExactly | config/config.go:255-262 | two members share a health record if and only if they have the same name and origin, or a manual name is that of a subscription node behind "sub:" |
| ProxyGroups.GoodPickUnique | config/config.go:641-652 | for every kind, list, health, active name and counter determine the pick and the next counter |
| GroupOutcomes.RemoveFirstExactly | config/config.go:668-675 | the list before the first occurrence followed by the list after it, all in order |
| GroupOutcomes.RemoveAbsent | config/config.go:668-675 | a list without the member stays as it is |
| ProxyGroups.ChosenUnique | config/config.go:559-591 | for every kind, from equal counters picking until a pick leads somewhere has one outcome and one final counter |
| GroupOutcomes.ChosenIsOutcome | config/config.go:559-591 | picking and removing until a pick leads somewhere ends, for a select group, with the first leading member of the active name, else the first leading member; for a best group, with the first of the fastest measured leading members, else the first leading one never checked; for an unknown kind, with the first leading member; for load-balance, with a leading member not known dead; and with none exactly when there is no such member |
| GroupOutcomes.OutcomeUnique | config/config.go:559-591 | that is one member, whatever the counter, for every kind but load-balance |
| ProxyGroups.CycleBelow | db/matcher.go:530-549 | a repeated or marked group below a member, with this group marked, is one below this group |
| ProxyGroups.CycleAbove | db/matcher.go:530-549 | and a repeated or marked group below this group shows below some member |
| ProxyGroups.HitsNothingIsCycle | db/matcher.go:266-274 | with no marks, what the check finds is a reachable cycle of manual members |
| ProxyGroups.EdgeIsManual | config/config.go:381-429 | every handover between groups is one the cycle check follows |
| ProxyGroups.BelowShrinks | config/config.go:597-637 | without a reachable cycle, going to a member strictly shrinks the set of groups below and keeps it acyclic |
| GroupSearch.ProxyGroup.ComputeMembers | config/config.go:381-412 | the candidate nodes in order, followed by the manual names that resolve, in order |
| GroupSearch.ProxyGroup.ComputeManualMembers | config/config.go:416-429 | the loop yields the manual members in order |
| GroupSearch.ProxyGroup.NextSelectMember | config/config.go:707-719 | the first member with the active name, else the first member, else none; health is ignored |
| GroupSearch.ProxyGroup.NextRoundRobinAliveMember | config/config.go:725-749 | none if and only if all are dead, and then the counter has gone round once; else the member at the counter, everything probed before it being dead, the counter moved once per probe |
| GroupSearch.ProxyGroup.NextByHealthMember | config/config.go:754-789 | the first of the measured alive members of least latency, else the first unchecked one, else none |
| GroupSearch.ProxyGroup.PickMember | config/config.go:641-652 | a selectable member of the list, or none exactly when the list has none, by the rule of the kind; pick and new counter of a load-balance group are those of the round robin from the old counter |
| GroupSearch.ProxyGroup.NextWithVisited | config/config.go:559-591 | ends on every graph; a proxy comes with the member it was resolved through and a walk to it; nil leaves every visited group off the stack exhausted; no counter of a group visited before is moved |
| GroupSearch.ProxyGroup.ResolveMemberWithVisited | config/config.go:656-666 | a leaf member always resolves to its own proxy; a group member gives what its search gives |
| GroupSearch.ProxyGroup.Next | config/config.go:551-553 | nil if and only if no leaf is reachable through selectable members, on every finite graph, cycles included; without a reachable cycle the proxy comes through the member that the list, the active name and the health determine as the outcome |
| GroupSearch.ProxyGroup.PickActiveMember | config/config.go:597-637 | on a graph without reachable cycles it ends without a visited set, is empty if and only if no leaf is reachable, names the member that is the outcome of the list, and moves only counters of groups below |
| GroupSearch.CheckGroupCycle | db/matcher.go:530-549 | error if and only if a manual walk repeats a group or meets a marked one; the marks are restored |
| GroupSearch.CheckAllGroups | db/matcher.go:266-274 | start-up fails if and only if some enabled group can reach a cycle |
| GroupSearch.Compare | config/config.go:593-637 | on an accepted graph, from the same counter, both searches are empty or neither, the named member is the one the proxy is resolved through and the outcome of the list, and both leave the same counter, for every kind of group |
| GroupSearch.ResolveName | db/matcher.go:594-603 | the proxy of that name, else what the group of that name gives through the outcome of its list, else nil |
| ViaChains.Redirect | db/matcher.go:507-528 | mid-walk invariant: if every chain ends or meets the current node, then after linking it to the next node every chain ends or meets that one |
| ViaChains.Finish | db/matcher.go:507-528 | linking the last node to a fresh DIRECT makes every chain end |
| ViaChains.LoopsStep | db/matcher.go:507-528 | a via chain loops if and only if it goes on to a proxy whose chain loops |
| ViaChains.RevisitLoops | db/matcher.go:507-528 | meeting a node already passed means the via chain never ends |
| ViaChains.RevisitLater | db/matcher.go:507-528 | a path that comes back from the next node is one that comes back from this node |
| ViaChains.WalkedThen | db/matcher.go:507-528 | a step followed by a walk from the next node is a walk from this node: every link is as before or where its via says |
| ViaChains.SetNext | db/matcher.go:507-528 | on success every chain ends, the start points where its via says and every other link is untouched or where its via says; an error comes with a path of hops, group vias included, from the start to a node already visited or already on the path; with plain vias, error if and only if the via chain loops |
| ViaChains.NextHop | db/matcher.go:508-517 | the proxy of the via name, else what the group of that name gives, else none |
| ViaChains.WireAll | db/matcher.go:302-308 | after all walks, in any order and however they overwrite each other, every proxy of the table points where its via says and every chain ends; it succeeds when no path of hops comes back to itself; with plain vias, success if and only if no via chain loops |
| RateLimiting.RateLimiter.Schedule | config/config.go:968-989 | the delay leads to the later of now and the free time, which moves on by the rounded-down cost; no limit for rates of zero or less |
| RateLimiting.NextGrant | config/config.go:968-989 | the next grant is the clock or exactly the cost of this call later |
| RateLimiting.GrantsNeverDecrease | config/config.go:968-989 | granted send times never decrease, at any clock readings |
| RateLimiting.RateIsKept | config/config.go:968-989 | for k < n the bytes of calls k to n-1 times 10^9 are less than rate times (s_n - s_k + n - k) |
| RateLimiting.NoNeedlessDelay | config/config.go:968-989 | nothing waits longer than the bytes since the last undelayed call take at the rate |
| DnsCodec.ReadLabels | mesh/dns.go:845-861 | the label loop reads the name defined by recursion over the bytes, with and without compression pointers |
| DnsCodec.ParseDNSQueryDomain | mesh/dns.go:832-877 | the question of a query, or nothing for short, response, empty or malformed packets |
| DnsCodec.ParseDNSResponseDomain | mesh/dns.go:337-386 | the question of a response |
| DnsCodec.ParseDNSResponseIP | mesh/dns.go:1011-1089 | address and TTL of the first answer if it is an A record of a successful response |
| DnsCodec.CopyName | mesh/dns.go:892-905 | the builders' unchecked walk: where it ends, that it runs off the packet, or that it finds no end, and what it copied |
| DnsCodec.BuildDNSResponse | mesh/dns.go:880-919 | the response that AcceptedIsAnswered describes; nil for a name without an end, and a panic exactly when a label runs past the capacity of the packet |
| DnsCodec.BuildBareResponse | mesh/dns.go:922-987 | the SERVFAIL and the empty response |
| DnsCodec.BuildDNSQuery | mesh/dns.go:990-1007 | the query bytes of a domain split at its dots |
| DnsRoundTrip.AcceptedNameWalks | mesh/dns.go:832-903 | a name the query parser accepts is walked by the unchecked builders, to the same end |
| DnsRoundTrip.ReadsWhatLies | mesh/dns.go:845-861 | a name that lies in the packet, label by label to its end or its pointer, is read |
| DnsRoundTrip.WhatIsReadLies | mesh/dns.go:845-861 | and what is read lies there |
| DnsRoundTrip.QuestionIsRead | mesh/dns.go:337-386 | name and type of a question are read if and only if type and class follow the name |
| DnsRoundTrip.AddressIsRead | mesh/dns.go:1011-1089 | the first answer, behind a written or a compressed name, gives its four bytes and all 32 bits of its TTL if and only if it is a whole A record |
| DnsRoundTrip.SameBytesSameName | mesh/dns.go:337-386 | bytes accepted without pointers read as the same name by the parser that knows pointers |
| DnsRoundTrip.AcceptedIsAnswered | mesh/dns.go:832-919 | every accepted query, whatever its capacity, is answered in bounds; parsing the answer yields its transaction ID, the same question, the same address and TTL 5 s; the answer is of type A and class IN, and the pointer in it leads to the name of the question |
| DnsRoundTrip.AcceptedIsRefused | mesh/dns.go:922-987 | a refusal carries the same ID and question, the verdict in its flags and no records, yields no address, and is not itself a query |
| DnsRoundTrip.RefusedExactly | mesh/dns.go:922-987 | a bare response is not built if and only if the packet has no header or a label runs past its end |
| DnsRoundTrip.BareBodyIsPrefix | mesh/dns.go:922-987 | behind its header a bare response has a beginning of what the query has there |
| DnsRoundTrip.PanicsExactly | mesh/dns.go:892-905 | the response builder panics if and only if some label of the name reaches past the capacity of the packet |
| DnsRoundTrip.UnacceptedCanPanic | mesh/dns.go:892-905 | a packet the parser refuses drives the builder out of bounds exactly when its capacity is under 18 |
| DnsRoundTrip.ReadEncoded | mesh/dns.go:990-1007 | encoded labels of 1 to 63 bytes are read back |
| DnsRoundTrip.ReadBackMeansGood | mesh/dns.go:832-877 | whatever is read back and joins to the domain had labels of 1 to 63 bytes |
| DnsRoundTrip.QueryRoundTrip | mesh/dns.go:832-1007 | the query parser inverts the query builder if and only if every label has 1 to 63 bytes (section 4.1 of RFC 1035) |
| DnsRoundTrip.QueryFields | mesh/dns.go:990-1007 | a built query has its ID, recursion desired, one question, no records, type A and class IN |
| DnsRoundTrip.EmptyDomainIsNotReadBack | mesh/dns.go:990-1007 | the empty domain is not read back |
| DnsForwarding.DnsForwarder.Register | mesh/dns.go:716-722 | appends the waiter under the lower-cased name of its question and leaves every other key alone |
| DnsForwarding.DnsForwarder.Respond | mesh/dns.go:287-310 | takes all waiters of the name and sends each, in order, one answer with its own ID and question, of class IN and pointing to its own name |
| DnsForwarding.DnsForwarder.SweepPending | mesh/dns.go:780-812 | keeps exactly the waiters that are not too old, drops empty keys, and sends each of the others one SERVFAIL with its own ID and question |
| DnsForwarding.DnsForwarder.Cancel | mesh/dns.go:734-748 | removes the waiter itself and nobody else, and the key when nobody is left, and sends it SERVFAIL in any case |
| DnsForwarding.DnsForwarder.Stop | mesh/dns.go:441-474 | empties the table and sends every waiter one SERVFAIL |
| DnsForwarding.NextKeeps | mesh/dns.go:716-812 | each of the five steps keeps: own lower-cased key, no empty list, in the table or left it exactly once, answered once per departure and once per late failure |
| DnsForwarding.RunsAreSound | mesh/dns.go:716-812 | the same in every state of every interleaving of the five steps |
| DnsForwarding.AnsweredAtMostOnce | mesh/dns.go:734-750 | a waiter is answered at most once if and only if no failed write of it happened when it had left the table |
| DnsForwarding.LateFailureAnswersTwice | mesh/dns.go:734-748 | a run in which an answer overtakes a failed write and the client is answered twice |
| DnsForwarding.ResponseServesItsName | mesh/dns.go:287-310 | a response takes exactly the waiters of its name |
| DnsForwarding.SpellingsMeet | mesh/dns.go:287-310 | two spellings have one key if and only if they differ at most in the case of letters |
| DnsForwarding.SweepLeavesNoneOld | mesh/dns.go:780-812 | after a sweep nobody left had waited over 5 s when it started, and nobody was taken early |
| FakeIpPool.LookedSound | mesh/fakeip.go:113-162 | a lookup keeps the maps inverse, addresses allocatable and the cursor in range, and gives the domain an address |
| FakeIpPool.ReleasedSound | mesh/fakeip.go:213-233 | so does a release, after which the domain has none |
| FakeIpPool.RunsAreSound | mesh/fakeip.go:113-233 | so does every run |
| FakeIpPool.StepKeepsMapping | mesh/fakeip.go:113-162 | an allocation brings the cursor one address closer to a mapping, and no other step does |
| FakeIpPool.MappingLasts | mesh/fakeip.go:113-162 | an unreleased mapping survives as many allocations as there are addresses before the cursor reaches it |
| FakeIpPool.NewMappingSurvives | mesh/fakeip.go:113-162 | with N allocatable addresses a new mapping survives the next N-1 allocations |
| FakeIpPool.NextAllocationEvicts | mesh/fakeip.go:134-146 | and with the cursor on it the next allocation takes its address |
| FakeIpPool.StepKeepsMirror | mesh/fakeip.go:134-155 | each operation and its writes keep the stored records equal to the two maps |
| FakeIpPool.RunKeepsMirror | mesh/fakeip.go:134-227 | so does every run with successful writes |
| FakeIpPool.LoadExactly | mesh/fakeip.go:65-105 | after any part of the records has been loaded, exactly those mappings are present and the cursor is past them |
| FakeIpPool.LoadRestores | mesh/fakeip.go:65-105 | a fresh pool on the same subnet gets exactly the stored mappings, in whatever order they are read, with an in-range cursor past all of them |
| FakeIpPool.LoadIsSoundExactly | mesh/fakeip.go:65-105 | loading any records gives a sound pool if and only if those in range are allocatable and have distinct addresses |
| FakeIpPool.LoadCanRepeatAnAddress | mesh/fakeip.go:65-105 | two stored records with one address, after which the pool is unsound |
| FakeIpService.FakeIpBucket.PutFakeIP | db/helpers.go:13-24 | both records of a mapping |
| FakeIpService.FakeIpBucket.DeleteFakeIP | db/helpers.go:47-52 | removes both records |
| FakeIpService.FakeIpBucket.GetAllFakeIPs | db/helpers.go:80-99 | lists every domain record once and no other record |
| FakeIpService.FakeIPPool.constructor | mesh/fakeip.go:27-54 | reserved are exactly the last address and the first skip + 1 ones, the cursor is behind those, and what is left is the allocatable range |
| FakeIpService.FakeIPPool.Lookup | mesh/fakeip.go:113-162 | an address of the pool that is not reserved; the running pool and its bucket follow the specified lookup, eviction and writes |
| FakeIpService.FakeIPPool.Advance | mesh/fakeip.go:122-130 | the allocation loop ends and settles on the next allocatable address in circular order |
| FakeIpService.FakeIPPool.Release | mesh/fakeip.go:213-233 | the running pool and its bucket follow the specified release |
| FakeIpService.FakeIPPool.LoadFromDB | mesh/fakeip.go:65-110 | whatever is stored, the pool becomes the specified load of it, each record once; from a fresh pool it is sound if and only if the records in range are allocatable and distinct |
| FakeIpService.FakeIPPool.InAllocRange | mesh/fakeip.go:263-273 | true exactly for the allocatable addresses |
| Addresses.BitOfNumber | mesh/route_trie.go:38-48 | the bit taken from a byte is the bit of the 32-bit number |
| Addresses.ContainsIsLeading | mesh/route_trie.go:38-48 | two addresses agree above 32-len bits as numbers if and only if their first len bits are equal |
| RouteTable.ScanIsRight | mesh/route_trie.go:56-88 | the running best of a linear scan is the longest entry of the table |
| RouteTable.LookupIsScan | mesh/route_trie.go:29-88 | longest match in the table of a history is the linear scan for the longest containing prefix, the last insert winning for equal prefixes |
| RouteTable.OrderDoesNotMatter | mesh/route_trie.go:29-53 | for distinct prefixes the answer does not depend on the insert order |
| RouteTrie.Trie.Insert | mesh/route_trie.go:29-53 | the pointer trie then stands for the table with this prefix set; non-IPv4 prefixes are ignored |
| RouteTrie.Trie.Lookup | mesh/route_trie.go:56-88 | the longest match of the table the trie stands for |
| RouteTrie.Trie.Clear | mesh/route_trie.go:97-101 | the empty table |
| RouteTrie.Rebuild | mesh/route_trie.go:22-53 | a trie filled from any list of routes answers every address as the linear scan does |
| SuffixTable.AlignmentIsMatch | mesh/ipip.go:244-257 | label alignment is "equal, or ends with dot plus suffix", for every suffix and domain |
| SuffixTable.NormalFormsMeet | mesh/node_trie.go:38-63 | two names are treated alike if and only if, one leading dot aside, they differ at most in the case of letters |
| SuffixTable.FirstInsertKept | mesh/node_trie.go:50-57 | per suffix the node IDs are distinct and each has the source of its first insert |
| SuffixTable.DeepestIsLongest | mesh/node_trie.go:62-88 | the deepest listed path is the longest matching suffix, with its string length |
| NodeTrie.SplitLabels | mesh/node_trie.go:26-34 | the labels in reverse order |
| NodeTrie.Trie.Insert | mesh/node_trie.go:37-57 | the pointer trie then stands for the table with this insertion |
| NodeTrie.Trie.Lookup | mesh/node_trie.go:62-88 | entries and length of the longest listed suffix that matches the lower-cased domain, or nothing and 0 |
| NodeTrie.Build | mesh/node_trie.go:18-57 | a trie filled by any inserts stands for the table of that list |
| Checksum.FoldsToAllOnes | mesh/ipip.go:205-222 | a sum folds to 0xFFFF if and only if it is a positive multiple of 0xFFFF |
| Checksum.ComplementCompletes | mesh/ipip.go:205-222 | a sum plus the complement of its fold folds to 0xFFFF |
| Checksum.OddTailIsPadded | mesh/forward.go:154-156 | an odd last byte counts as if a zero byte followed it |
| Checksum.WordSumOfPair | mesh/forward.go:151-153 | each pair of bytes counts as one number, high byte first |
| Checksum.StoredComplementChecks | mesh/forward.go:68-86 | bytes of any length, odd included, check once the complement is stored in a zeroed even field |
| Checksum.SumWords | mesh/forward.go:151-156 | the summing loop, an odd last byte in the upper half of its word |
| Checksum.FoldSum | mesh/forward.go:157-159 | the folding loop |
| Checksum.Sum | mesh/forward.go:147-162 | the summing loop, odd tail included, and the folding loop |
| Checksum.IpChecksum | mesh/ipip.go:205-222 | the complement of the folded word sum |
| Checksum.StoreChecksum | mesh/forward.go:69-85 | in place: the covered bytes then check, and only the field changes |
| Packets.DecrementIPTTL | mesh/forward.go:61-87 | in place: untouched packets stay equal, others become the specified packet, with the new TTL as answer |
| Packets.DecrementIsRight | mesh/forward.go:61-87 | of an IPv4 packet with time to live only bytes 8, 10 and 11 change, TTL goes down by one, and the header checks over the length its first byte gives, or over 20 bytes if that makes no sense |
| Packets.OthersAreLeftAlone | mesh/forward.go:61-87 | any other packet stays as it is |
| Packets.ForwardedLessThanTTL | mesh/forward.go:61-87 | an IPv4 packet is forwarded k times in a row if and only if k is less than its initial TTL; nothing else is forwarded |
| Packets.GenerateICMPTimeExceeded | mesh/forward.go:92-165 | nothing for short packets or no address; else a message of at most 576 bytes from the local address to the sender, of type 11 and code 0, that quotes the start of the packet, all of it if it fits, with header fields and both checksums right, odd lengths included |
| Packets.IPIPTunnel.Encapsulate | mesh/ipip.go:107-164 | a packet if and only if the address set last is not nil, and then the outer header plus the unchanged inner packet |
| Packets.OuterHeaderIsRight | mesh/ipip.go:115-152 | the outer header has the addresses, protocol 4, TTL 64, no fragmentation, the length modulo 2^16 and a right checksum |
| Packets.DecapsulateInverts | mesh/ipip.go:167-202 | stripping a wrapped packet gives back the inner packet |
| Packets.DecapsulateStrips | mesh/ipip.go:167-202 | an outer header of any length, options included, is stripped as a whole |
| Packets.DecapsulateRefuses | mesh/ipip.go:167-202 | nothing is stripped if and only if the packet is too short, not IPv4, not IP in IP or shorter than its own header |
| FlowKeys.FlowKey | frame/flowkey.go:31-68 | the hash loops compute the hash of addresses, protocol and ports of the inner packet |
| FlowKeys.FragmentedExactly | frame/flowkey.go:8-23 | a fragment is what has a bit set in its flags and offset below the reserved and the do-not-fragment bit |
| FlowKeys.TunnelIsSeenThrough | frame/flowkey.go:8-23 | an unfragmented IP-in-IP header of any length in front of an IPv4 packet is seen through |
| FlowKeys.OthersAreTakenAsTheyAre | frame/flowkey.go:8-23 | a packet of another version or protocol, or a fragment, is its own inner packet |
| FlowKeys.FlowIsFiveTuple | frame/flowkey.go:31-68 | two packets name one flow if and only if they agree in both addresses, the protocol and, for TCP and UDP, both ports |
| FlowKeys.HashOfLetterA | frame/flowkey.go:31-68 | the hash of the letter a is that of Jenkins' one-at-a-time function |
| FlowKeys.AlikeSameKey | frame/flowkey.go:31-68 | packets equal but for TTL and header checksum have the same key |
| FlowKeys.StepCarries | frame/flowkey.go:8-68 | every step of a path keeps the carried packet, but for TTL and checksum |
| FlowKeys.KeyIsConstant | frame/flowkey.go:8-68 | along any path of decrements, wraps and unwraps, at most one tunnel deep, the key stays that of the IPv4 packet p with InnerPacket(p) == p |
| FlowKeys.TunnelKeepsInside | mesh/ipip.go:167-202 | after any decrements outside, unwrapping gives back exactly the packet that was wrapped |
| FlowKeys.WrappingKeepsKey | frame/flowkey.go:8-23 | wrapping keeps the key of a packet whose inner packet names the same flow |
| FlowKeys.WrappingKeepsEveryHash | frame/flowkey.go:8-23 | and keeps the hash under every mixing step if and only if it does |
| FlowKeys.WrappingATunnelChangesKey | frame/flowkey.go:8-23 | a packet, itself a tunnel, whose key changes when it is wrapped |
| Frames.DecodeInverts | frame/frame.go:79-121 | a frame followed by anything decodes to itself and the rest |
| Frames.DecodeIsUnique | frame/frame.go:79-102 | whatever decodes was encoded exactly that way |
| Frames.DecodeAllInverts | frame/frame.go:79-121 | a stream of frames and an incomplete tail decodes to those frames |
| Frames.EncodeAllInjective | frame/frame.go:105-121 | different frame lists never give the same bytes |
| Frames.CutGivesPrefix | frame/frame.go:79-102 | a stream cut at any byte gives a prefix of the frames |
| Frames.DatagramRoundTrip | frame/packet_leg.go:15-40 | a datagram parses back to its frame if and only if the payload is within the limit, and is refused otherwise |
| Frames.DatagramIsUnique | frame/packet_leg.go:27-40 | an accepted datagram is the encoding of what is returned |
| FramedConn.AppDataOfFrames | frame/frame.go:156-185 | whatever control or unknown frames are mixed in, the application bytes are the DATA payloads in order |
| FramedConn.CutDataIsPrefix | frame/frame.go:156-185 | on a cut stream they are a prefix of what was written |
| FramedConn.BufferPool.Get | frame/frame.go:57-59 | a full-length buffer with unknown contents, no longer in the pool |
| FramedConn.BufferPool.ReturnBuffer | frame/frame.go:64-74 | the buffer is in the pool again and its contents are unknown |
| FramedConn.BytesBuffer.Write | frame/frame.go:256-261 | appends to what is pending |
| FramedConn.BytesBuffer.Read | frame/frame.go:263-276 | copies and removes the largest prefix that fits |
| FramedConn.ReadFrame | frame/frame.go:79-102 | the next frame of the stream in a buffer that is not in the pool, or an error exactly when no whole frame is left |
| FramedConn.WriteFrame | frame/frame.go:105-121 | the encoding, or an error and nothing when the payload is too large |
| FramedConn.ReverseFramedConn.Read | frame/frame.go:156-185 | the next application bytes, up to a buffer-full, although pooled buffers are handed back; an error only when none are left on the wire; an empty buffer loses nothing |
| FramedConn.ReverseFramedConn.Inject | frame/frame.go:190-194 | the bytes come before what is still on the wire |
| FramedConn.ReverseFramedConn.Write | frame/frame.go:196-203 | one DATA frame, or an error and nothing |
| FramedConn.ReverseFramedConn.ReadMany | frame/frame.go:156-185 | any reads with any non-empty buffers return, concatenated, exactly what was coming, in order, and end only when all is delivered |
| Transport.SerializeIsEncode | frame/transport.go:245-257 | the serialised frame, which is also the datagram, is the stream encoding |
| Transport.Send | frame/transport.go:123-159 | the encoding on the wire whichever write path is used, or nothing for a payload over the limit |
| Transport.SendBatch | frame/transport.go:165-242 | the encodings of all frames in order, by gathering or copying, or nothing when one is over the limit |
| Transport.Gather | frame/transport.go:193-206 | the list of headers and payloads flattens to the encodings |
| Transport.Copy | frame/transport.go:207-223 | the buffer filled by offset is the encodings |
| Transport.NextKeeps | frame/transport.go:91-121 | every step of reader, receivers and close keeps: per class, delivered then queued then in hand is what arrived |
| Transport.RunsAreSound | frame/transport.go:91-121 | in every state of every run, and what has arrived and what is left on the wire are the frames of the stream |
| Transport.DeliveredInOrder | frame/transport.go:91-279 | each class is delivered as a prefix of its order in the stream, nothing lost or duplicated before a close, and an error only after every control frame |
| Transport.DeliveredIsSent | frame/transport.go:91-279 | when the stream is the encoding of what was sent, cut anywhere, each class is delivered as a prefix of what was sent |
| Transport.ErrorComesLastExactly | frame/transport.go:259-279 | the error is taken after all data if and only if the data queue is empty when it is taken |
| Transport.ErrorCanOvertakeData | frame/transport.go:259-279 | a run in which the error is delivered while data is still queued |
| ConnJournal.LastChangeDecides | connlog/activeconn.go:157-190 | replaying entries leaves each connection as its last change says |
| ConnJournal.LastChangeAfter | connlog/activeconn.go:182-189 | among the entries after a cursor the last change is the overall one, if it is recent |
| ConnJournal.AfterNewest | connlog/activeconn.go:113-116 | what the truncated journal gives is the entries after the cursor or after the last dropped one |
| ConnJournal.FreshIsNotLost | connlog/activeconn.go:157-166 | a cursor not called stale is past everything dropped |
| ConnJournal.NextKeeps | connlog/activeconn.go:104-139 | each atomic step keeps: numbered history, and history plus what is in flight accounts for the live set |
| ConnJournal.RunsAreSound | connlog/activeconn.go:67-142 | so does every run in which no two unfinished changes concern the same connection |
| ConnJournal.StepLeavesAlone | connlog/activeconn.go:104-139 | a connection that is neither in flight nor newly journalled after a step was not touched by it |
| ConnJournal.SnapshotFollows | connlog/activeconn.go:166-180 | a scan of the live set, even one torn by concurrent changes, differs from it only where something is in flight or journalled after the version read before it |
| ConnJournal.ReplayRightExactly | connlog/activeconn.go:182-189 | replay puts a settled connection right if and only if its last change was not dropped, or the client had it right |
| ConnJournal.ReplayCatchesUp | connlog/activeconn.go:182-189 | with nothing dropped after the cursor the client follows from the version read |
| ConnJournal.ReplayingPollExactly | connlog/activeconn.go:182-189 | a poll that gets entries is right about a connection not in flight if and only if it brings its last change or the client had it right |
| ConnJournal.ClientRightExactly | admin/admin.go:1697-1721 | over any sequence of polls, each reading version, decision and entries at different moments, the client is right about a settled connection if and only if the last poll with news of it brought the news, or what it had before is right |
| ConnJournal.ClientIsRightExactly | admin/admin.go:1697-1721 | after a poll during which nothing is journalled and nothing is left in flight, the client has the live set if and only if that holds for every connection |
| ConnJournal.KeepingUpInforms | connlog/activeconn.go:157-190 | it holds for every connection when no poll loses an entry after its cursor between decision and fetch |
| ConnJournal.AnyMomentEndsRight | connlog/activeconn.go:157-190 | a client with the live set of any moment from its cursor on ends with the current one, despite truncation and gaps |
| ConnJournal.QuickPollKeepsUp | connlog/activeconn.go:157-190 | a poll whose decision and fetch see the same journal loses none |
| ConnJournal.RestartIsNoticed | connlog/activeconn.go:157-180 | a client from before a restart, whatever it holds, whose cursor is above the version gets a scan of the live set, follows from there, and has the live set when nothing is in flight |
| ConnJournal.RestartedClient | connlog/activeconn.go:157-190 | from that poll on it is a client as any other, so ClientRightExactly holds for it |
| JournalOverrun.OverrunLosesAChange | connlog/activeconn.go:157-190 | a run and a client that loses a removal because 500 entries are made between decision and fetch |
| ConnJournal.ReplayAgreesExactly | connlog/activeconn.go:104-139 | in every interleaving, replay gives the live state of a connection if and only if its last change made and its last change journalled have the same result |
| ConnJournal.OneOwnerJournalsInOrder | connlog/activeconn.go:104-139 | with one owner per connection and nothing in flight, the last change made is the last one journalled |
| ConnJournal.OverlappingChangesDiverge | connlog/activeconn.go:104-139 | two overlapping changes of one connection journalled in the wrong order, after which replay ends wrong |
| ConnLogging.ConnLog.Full | connlog/activeconn.go:94-102 | true exactly when the set is at its capacity |
| ConnLogging.ConnLog.Append | connlog/activeconn.go:106-117 | the locked region is a commit step: numbered entry, truncated journal |
| ConnLogging.ConnLog.Log | connlog/connlog.go:109-118 | a log event gets the next number and takes one of the version; the log has the newest 100 events, numbered over all events |
| ConnLogging.ConnLog.TrackActive | connlog/activeconn.go:67-120 | alone: live and journalled, or nothing at capacity |
| ConnLogging.ConnLog.RemoveActive | connlog/activeconn.go:122-142 | alone: gone and journalled, or nothing when absent |
| ConnLogging.ConnLog.Decide | connlog/activeconn.go:158-166 | the first locked region: stale if and only if the journal is empty, begins after the cursor, or the cursor is above the version |
| ConnLogging.ConnLog.EntriesAfter | connlog/activeconn.go:182-189 | the second locked region: exactly the journal entries after the cursor |
| ConnLogging.ConnLog.GetActiveConnsAfterSeq | connlog/activeconn.go:157-190 | stale as decided, in any case for an empty history or a cursor above the version; then the live set and no entries, else exactly the journal entries after the cursor |
| RuleStore.InsertKeeps | db/configstore.go:495-552 | an insertion keeps: no duplicates, exactly the stored rules, IDs from 1 below the next |
| RuleStore.DeleteKeeps | db/configstore.go:574-607 | so does a deletion |
| RuleStore.ReorderKeepsExactly | db/configstore.go:610-627 | a reordering that passes the check keeps it if and only if it is a permutation |
| RuleStore.ReorderCanLoseARule | db/configstore.go:610-627 | an accepted order with a repeated ID that breaks it |
| RuleStore.RunsAreSound | db/configstore.go:495-627 | the invariant in every state of every run of insert, update, delete and permuting reorder |
| RuleStore.IdsAreNotReused | db/configstore.go:495-552 | no ID is given out twice over a run, deletions included |
| RuleStore.ShownIsComplete | db/configstore.go:471-491 | a sound store shows every rule once, in order |
| RuleStore.InsertLands | db/configstore.go:495-552 | a rule inserted between two parts of the list lands exactly there, all else in place |
| RuleStore.InsertSucceedsExactly | db/configstore.go:495-552 | an error if and only if the anchor is neither absent nor 0 nor shown |
| RuleStore.InsertAtEnd | db/configstore.go:495-552 | without an anchor the new rule comes last |
| RuleStore.InsertAtFront | db/configstore.go:495-552 | with the anchor 0 it comes first |
| RuleStore.InsertAfterAnchor | db/configstore.go:495-552 | with the rule shown at position i as anchor it comes at position i + 1 |
| RuleStore.OnlyShownChange | db/configstore.go:555-607 | an update and a deletion fail if and only if the ID is not shown |
| RuleStore.UpdateShown | db/configstore.go:555-571 | the text at the place of that rule changes and nothing else |
| RuleStore.DeleteShown | db/configstore.go:574-607 | that rule is taken out of its place and every other one stays |
| RuleStore.ReorderShown | db/configstore.go:610-627 | the same rules in the given order |
| RuleStore.ConfigStore.InsertRuleWithID | db/configstore.go:495-552 | the transaction: all three records change as specified, or nothing; the new ID goes to the end of the order, to its front for anchor 0, else right behind the first occurrence of its anchor |
| RuleStore.ConfigStore.UpdateRuleByID | db/configstore.go:555-571 | the transaction, or nothing |
| RuleStore.ConfigStore.DeleteRuleByID | db/configstore.go:574-607 | the transaction, or nothing |
| RuleStore.ConfigStore.ReorderRules | db/configstore.go:610-627 | the order is replaced if and only if every ID exists |
| RuleStore.ConfigStore.ListRulesWithIDs | db/configstore.go:471-491 | the listing, IDs without a record skipped |
| RuleMatch.WindowIsCircular | config/config.go:1031-1039 | a window is the minutes going forward from its start, past midnight if need be; (0,0) is always |
| RuleMatch.FirstRuleIsFirst | db/matcher.go:559-592 | the rule before which none applies is the one found, and some rule is found if any applies |
| RuleMatch.FirstRuleApplies | db/matcher.go:559-592 | what is found applies and nothing before it does |
| RuleMatch.PlacedRuleTakesOver | db/matcher.go:447-454 | a rule placed in the list takes over exactly the requests it covers and no earlier rule does |
| RuleMatch.InsertedRuleTakesOver | db/configstore.go:495-552 | a rule inserted into the store and parsed with the rest takes over exactly the requests it covers and no rule shown before it does |
| RuleMatch.OthersKeepTheirRequests | db/matcher.go:457-469 | removing the rules of one proxy leaves the requests of all others where they were |
| RuleMatch.CidrMeaning | config/config.go:1141-1182 | a prefix covers the addresses that share its first bits; a malformed one covers 0.0.0.0 and nothing else |
| RuleMatch.NoSlashMeaning | config/config.go:1141-1145 | so does a pattern without a slash |
| RuleMatch.RuleMeaning | config/config.go:1116-1214 | a suffix rule applies to what ends in its pattern, a match-all rule to everything, a network rule to what is in its network, in its window, for its mapping if it names one, and only with a proxy name |
| Masks.MaskComparesTop | config/config.go:1141-1182 | comparing two addresses under the mask of a prefix is comparing their leading bits |
| RuleMatch.CompiledMeansRule | config/config.go:1116-1214 | a compiled matcher, network and mask included, answers with its window exactly as the rule reads |
| RuleMatch.UnknownRulesNeverApply | db/matcher.go:472-505 | leaving out rules of unknown type changes no answer |
| RuleMatch.RuleMatcher.BuildMatchers | db/matcher.go:472-505 | both arrays are aligned with the known rules, entry by entry |
| RuleMatch.RuleMatcher.AddRule | db/matcher.go:447-454 | the new rule first, arrays aligned again |
| RuleMatch.RuleMatcher.RemoveRule | db/matcher.go:457-469 | all rules of that proxy gone, arrays aligned again |
| RuleMatch.RuleMatcher.MatchRequest | db/matcher.go:559-592 | the walk over the two arrays gives proxy name and window of the first rule of the list that applies, and the mapping of the request |
| RuleMatch.RuleMatcher.Resolve | db/matcher.go:559-603 | the first rule that applies, together with what its proxy name stands for; nothing when none applies |

## Left out

- GroupSearch.ProxyGroup.Next: takes as given non-empty proxy and group names, map keys equal to group names, subscription candidates that are present in the subscription, and resolver answers that do not change during the search.
- GroupSearch.ProxyGroup.NextRoundRobinAliveMember: the counter is unbounded, so the overflow of the 64-bit counter to negative indices is not modelled.
- GroupSearch.Compare: pairs two operations of the source in one method, with the counter set back in between, so that their results can be related; it is not an operation of the source.
- GroupSearch.CheckAllGroups: the enabled groups are given; reading them from the configuration is not modelled.
- ViaChains.WireAll: start-up only. The hot rewiring after a change logs an error and keeps a half-written chain, about which nothing is claimed.
- RateLimiting.RateLimiter.Schedule: integers are unbounded, so overflow of 64-bit nanoseconds is not modelled; byte counts are non-negative.
- DnsCodec.BuildBareResponse: the two builders of the source differ only in their flag bytes and are one method with a verdict.
- DnsForwarding.DnsForwarder.Respond: lower-casing is ASCII only; sockets, the answer cache and goroutine start and stop are not modelled.
- DnsForwarding.DnsForwarder.Register: the worker's earlier checks (a domain was parsed, the forwarder runs) are a precondition that the query parses.
- FakeIpService.FakeIPPool.Lookup: addresses and store keys are numbers and constructors instead of text; all writes succeed; the pool has an allocatable address and ends below 2^32-1; the real-IP cache is not modelled.
- FlowKeys.WrappingKeepsKey: one way only, because two flows can have the same 32-bit hash; WrappingKeepsEveryHash is the equivalence without collisions.
- RouteTrie.Trie.Insert: the mask length is at most 32, as for every IPv4 network.
- NodeTrie.Trie.Lookup: lower-casing is ASCII only.
- Checksum.Sum: bounded to the length below which the 32-bit running sum cannot overflow.
- Packets.DecrementIPTTL: a packet of 9 to 19 bytes that passes the first checks is excluded, because the code then indexes out of range.
- Packets.IPIPTunnel.Encapsulate: per-node addresses and logging are not modelled.
- FramedConn.ReverseFramedConn.Read: deadlines, heartbeat timers and locks are not modelled.
- Transport.SendBatch: short writes and write errors of the operating system are not modelled.
- Transport.RunsAreSound: the receive loop and its queues are a state machine over atomic steps, not an object with goroutines.
- ConnJournal.RunsAreSound: assumes one owner per connection ID, as connection records have; the general case is ConnJournal.ReplayAgreesExactly.
- ConnJournal.ClientRightExactly: the boot number by which a client also detects a restart is not modelled; a restart is covered by ConnJournal.RestartIsNoticed for cursors above the new version. Polls of one client do not overlap.
- ConnLogging.ConnLog.GetActiveConnsAfterSeq: both locked regions in one uninterrupted call, and the snapshot as a set; interleavings are covered by ConnJournal.ClientRightExactly.
- RuleStore.ConfigStore.InsertRuleWithID: IDs are unbounded, and JSON encoding and storage errors are not modelled; a transaction is atomic.
- RuleMatch.RuleMatcher.MatchRequest: returns the window instead of its text; address and number parsing are given functions.
- Parsing of rule texts and of proxy names with mapping and time suffixes: a given function in `InsertedRuleTakesOver`.
- Health sampling, subscriptions with their regular-expression filters, and group initialisation.
- The resolver rewrite before matching and the loopback shortcut.
- `DNSCache` and `ParseDNSResponseIPs`.
- Static route matching (`MatchStaticRoute`) and address calculation (`CalculateEIP`, `CalculateDNSIP`).
- Admin pages, dialers, TLS, SSH, tunnels, the gVisor glue, mesh management, DHCP and process control: input and output over libraries.
