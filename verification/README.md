# flexd: a verified model of its scheduling, protocol and filtering logic

flexd is a reverse proxy.  This project models, in Dafny, the parts of it that carry state or
transform requests, and proves what they guarantee over all inputs, all runs and all
interleavings.  `dafny verify dfyconfig.toml` checks everything.

| file | models |
|---|---|
| `Cumulative.dfy` | selection by cumulative weight, shared by the balancer and the A/B splitter |
| `Sorting.dfy`, `Balance.dfy` | the three balancing strategies and the in-flight gauges |
| `Failover.dfy`, `Requests.dfy` | failover of one proxied request, and many requests interleaved |
| `RateLimit.dfy`, `Limits.dfy` | the reset tracker and the connection counter |
| `UpstreamFilter.dfy`, `Resolver.dfy` | the authority splitter, restricted ranges, the pinning DNS cache |
| `AbSplit.dfy`, `Routing.dfy`, `Locations.dfy` | A/B splitting, configuration checks, choice of upstream and location |
| `Headers.dfy` | hop-by-hop stripping, the forwarding policy, the header assembly of a forwarded request |
| `Utf8.dfy`, `Decoding.dfy`, `UriScan.dfy` | UTF-8, the two percent-decoders and the index scan of the URI check |
| `StaticPath.dfy` | the path opened for a static file |
| `Reload.dfy`, `Startup.dfy` | the reload protocol and the startup sequence |

Code that updates state is modelled by classes and methods with loops, each proved against a
specification function; concurrent code is a state machine over its atomic steps, and a run is any
sequence of steps.  Hashes, regex matching, DNS answers, upstream answers, the clock, bind,
privilege-drop, acceptor-build and issuance outcomes, IP and URI parsing and CIDR containment are
arbitrary functions or parameters.

Where the code and its own documentation differ, the model follows the code:

- The reset tracker is documented as a sliding window.  It is a window that restarts, so up to
  twice `max` resets in one window length can pass (`RateLimit.WorstCase`); the documented bound of
  `max` holds exactly for an empty window or a `max` of zero (`RateLimit.SlidingIff`).
- A refused `acquire_connection` is documented to mean that the cap was reached.  A refusal can
  also be caused by other refusals not yet undone (`Limits.RefusalWithFreeSlot`); the documented
  meaning holds exactly for a single accepting thread (`Limits.RefusalsMeanFullIff`).
- Sticky sessions are documented per split.  The table is keyed by session alone, so two sticky
  splits interfere unless they cannot disagree (`AbSplit.TransparentIff`).
- Validation is meant to ensure that a proxy location finds an upstream.  It does not when a client
  was pinned through another sticky split (`Locations.RequestStranded`), nor when two splits share
  a name, because the router keeps the last and the lookup takes the first
  (`Routing.DuplicateNamesStrand`).  `Routing.RoutingTotalIff` gives the exact condition, and
  `Locations.RequestServedIff` the same from the request path on.
- Validation is also meant to ensure that the upstream has servers.  An inline upstream without
  servers passes when a shared pool has some, and is then selected (`Routing.EmptyPoolSelected`);
  the pools of split groups are not looked at (`Routing.EmptySplitPoolSelected`).
  `Routing.SelectedPoolHasServersIff` gives the exact condition.
- Certificate renewal announces that accept loops pick up the new certificate.  A QUIC loop never
  does, and a TLS loop does not when its block is gone from the current configuration or has lost
  its ssl section (`Reload.RenewalMissesQuic`, `Reload.RenewalMissesTls`);
  `Reload.RenewalReachesIff` gives the exact condition.  A build that fails leaves a TLS loop
  without an acceptor (`Reload.HasAcceptorIff`).
- The index scan for overlong escapes refuses well-formed characters whose first byte is 0xE0
  (`UriScan.WellFormedRefused`) and panics on some texts (`UriScan.ScanCanPanic`).  It is free of
  panics exactly when every place where a slice would cut a character comes after an escape that
  is refused (`UriScan.PanicFreeIff`); the decoder after it would refuse every text it panics on
  (`UriScan.ScanOnDecodable`).

## Model

| member | source | states |
|---|---|---|
| Cumulative.OwnerUnique | src/balance.rs:63-73 | a point belongs to at most one entry's interval of running weights |
| Cumulative.Owner | src/balance.rs:63-73 | every point below the total weight belongs to some entry |
| Cumulative.Scan | src/balance.rs:64-73 | the loop over the running weight stops at the owner of the point, and finds none exactly when the point is at or above the total |
| Cumulative.ShareBelowTotal | src/balance.rs:63-73 | below the total, the ticks an entry gets are the overlap of two intervals |
| Cumulative.FullRound | src/balance.rs:170-174 | any full round of ticks, wherever it starts, gives each entry exactly its weight |
| Cumulative.Fair | src/balance.rs:170-174 | over q rounds and r further ticks an entry gets between q times its weight and that plus the smaller of its weight and r |
| Cumulative.ExactWhenAligned | src/balance.rs:171 | when the cursor's range is a multiple of the total weight, rounds stay exact across its wrap |
| Cumulative.ShortWhenMisaligned | src/balance.rs:171 | otherwise some round across the wrap gives the last entry one tick too few |
| Sorting.PermutationCovers | src/balance.rs:189-193 | an order of n distinct indices below n leaves no server out |
| Sorting.RingIsPermutation | src/balance.rs:189-193 | the ring starts at the primary and sweeps every server once |
| Sorting.StableSortIsPermutation | src/balance.rs:150-163 | the sorted order holds every server once whatever the comparator answers |
| Sorting.StableSortInOrder | src/balance.rs:151-163 | for a total preorder the result is sorted by comparator and then by index |
| Sorting.SortedOrderUnique | src/balance.rs:151-163 | that order is the only one, so any stable sort produces it |
| Balance.TotalWeightFits | src/balance.rs:59-61 | the total weight of a non-empty pool is positive and fits 64 bits for up to 2^32 servers |
| Balance.IndexForPoint | src/balance.rs:64-73 | returns the owner of the point, or 0 for a point out of range |
| Balance.ProductsFit | src/balance.rs:155-161 | the comparator's 64-bit products are exact for all legal weights if and only if the load is at most 2^32 + 1 |
| Balance.ComparatorIsTotalPreorder | src/balance.rs:151-162 | cross-multiplied comparison of (in-flight + 1) / weight is total and transitive |
| Balance.HeadIsLeastLoaded | src/balance.rs:149-164 | the first least-conn candidate is the lowest-index server with the least (in-flight + 1) / weight |
| Balance.FirstUpstreamDecides | src/balance.rs:86-110 | of several upstreams with one name the first decides the pool, which starts with its cursor at zero and one gauge at zero per server |
| Balance.Balancer.constructor | src/balance.rs:86-110 | builds one idle pool per name and no live guard |
| Balance.PrefixIsSum | src/balance.rs:55-61 | the running weights are the sums of the configured weights, a weight of zero counting as one |
| Balance.Balancer.Candidates | src/balance.rs:138-176 | for every strategy a permutation of the servers: sorted by load, or a ring from the owner of the client's hash or of the cursor's tick, the cursor advancing by one modulo 2^64 and nothing else changing |
| Balance.OrderFollowsWeights | src/balance.rs:59-73 | an ip-hash or round-robin order starts with the server whose interval of summed configured weights holds the client's hash or the cursor's tick modulo their sum, and goes on around the ring |
| Balance.IpHashIsSticky | src/balance.rs:165-168 | a client's ip-hash order does not depend on the pools |
| Balance.IpHashIsProportional | src/balance.rs:165-168 | of any W consecutive hashes exactly w_i make server i the first candidate |
| Balance.LeastConnOrder | src/balance.rs:149-164 | the least-conn order ascends in (in-flight + 1) / configured weight by the gauges as they are, equal servers by index |
| Balance.LeastConnHead | src/balance.rs:149-164 | its head is the lowest-index server with the least such load of all |
| Balance.Balancer.Track | src/balance.rs:180-186 | adds one live guard and one to its gauge, keeping every gauge equal to its number of live guards |
| Balance.Balancer.DropGuard | src/balance.rs:47-53 | removes one live guard and one from its gauge, keeping the same invariant |
| Balance.Balancer.Draw | src/balance.rs:229-236 | k round-robin requests in a row pick the servers that k consecutive ticks fall to by the summed configured weights |
| Balance.TrackThenDrop | src/balance.rs:180-186 | dropping a guard restores the gauges as they were before it was taken |
| Balance.RoundRobinIsFair | src/balance.rs:170-174 | in q * W + r picks that do not wrap the cursor, W being the sum of the configured weights, server i comes first between q * w_i and q * w_i + min(w_i, r) times |
| Balance.WrittenWeightsAreFair | src/balance.rs:170-174 | with all weights at least one, w_i and W are the weights as written and their sum |
| Balance.ExactAcrossWrap | src/balance.rs:171-172 | rounds of W picks are exact from every cursor value, wrap included, if and only if W divides 2^64 |
| Failover.Attempt | src/handler.rs:690-711 | one guarded attempt of a request running alone returns the server's answer and leaves guards and gauges as they were |
| Failover.Walk | src/handler.rs:672-714 | walking through candidates ends with the first final answer among allowed servers, or with 403 or 502 as the last candidate fixes it |
| Failover.DispatchProxy | src/handler.rs:664-715 | a request running alone tries the balancer's order, contacts exactly the candidates let through up to the deciding one and none twice, delivers that one's own response or status, and leaves every gauge unchanged on every exit |
| Failover.WalkDelivers | src/handler.rs:690-714 | the client gets the response or failure status of the first candidate that the filter lets through and that can be connected to, and without one 403 or 502 as the last candidate fixes it |
| Failover.WalkContacts | src/handler.rs:672-714 | exactly the candidates let through up to that one are contacted |
| Failover.DeliveredIff | src/handler.rs:702 | a response reaches the client if and only if the deciding candidate gave it |
| Failover.WalkIsClean | src/handler.rs:674-688 | the servers contacted are distinct candidates that the filter allows |
| Failover.FailoverComplete | src/handler.rs:661-715 | whatever the order, a request gets a server's own answer if and only if some server is allowed and reachable |
| Failover.ExhaustedStatus | src/handler.rs:672-714 | with all servers allowed a failing request gets 502, with none allowed 403 |
| Requests.StepKeepsInv | src/handler.rs:672-714 | every atomic step of every request, including its being dropped, keeps the gauges equal to the requests awaiting each server and every request on its walk |
| Requests.GaugesCountAwaiting | src/balance.rs:180-186 | in every interleaving of requests each gauge is the number of requests awaiting that server, each request has asked distinct allowed servers and finishes as if it had run alone, and a pool's round-robin requests try first the owners of consecutive ticks |
| Requests.ConcurrentRoundRobinIsFair | src/balance.rs:170-174 | in every interleaving, of q * W + r consecutive round-robin arrivals of an upstream at its pool between q * w_i and q * w_i + min(w_i, r) try server i first |
| Requests.FinishedDelivers | src/handler.rs:690-714 | every finished request of every interleaving has delivered the answer of its deciding candidate, or 403 or 502 without one, and contacted exactly the candidates let through up to it |
| Requests.RequestComesToEnd | src/handler.rs:672-714 | a running request can always take a step, and finishes within 2 n + 1 of its own steps for n servers |
| Requests.NoGaugeLeaks | src/balance.rs:47-53 | when no request awaits an answer every gauge is zero |
| RateLimit.ResetTracker.constructor | src/security/rate_limit.rs:35-44 | a new tracker has counted nothing and its window starts now |
| RateLimit.ResetTracker.RecordReset | src/security/rate_limit.rs:48-60 | restarts the window when more than its length has passed, counts the reset and answers whether the count exceeds the maximum |
| RateLimit.EarlyResetCounts | src/security/rate_limit.rs:48-60 | a reset up to the window's end counts in it, a clock that runs backwards included, and one after it opens a new window |
| RateLimit.ResetTracker.RecordAll | src/security/rate_limit.rs:80-103 | a run of resets is answered one by one as the history functions say |
| RateLimit.ToleranceBound | src/security/rate_limit.rs:48-60 | any closed interval as long as the window holds at most 2 * max resets answered false |
| RateLimit.ToleranceBoundReached | src/security/rate_limit.rs:54-59 | for a positive maximum and window some run reaches that bound |
| RateLimit.ToleranceBoundEmptyWindow | src/security/rate_limit.rs:54-59 | with an empty window the bound is max |
| RateLimit.WorstCase | src/security/rate_limit.rs:48-60 | some run reaches 2 * max exactly when the window is not empty or max is zero |
| RateLimit.SlidingIff | src/security/rate_limit.rs:1-60 | at most max resets pass in every interval as long as the window, as documented, if and only if the window is empty or max is zero |
| RateLimit.CountIsTrailingResets | src/security/rate_limit.rs:54-58 | the counter is the number of trailing resets inside the current window and never exceeds the number of calls |
| RateLimit.KillIsJustified | src/security/rate_limit.rs:46-60 | a terminate answer means the last max + 1 resets arrived within one window length |
| RateLimit.FloodIsCaught | src/security/rate_limit.rs:46-60 | 2 * max + 1 resets within one window length include one answered terminate |
| Limits.ConnectionCounter.AddOne | src/security/limits.rs:36-38 | adds one and refuses exactly when the previous value had reached the cap |
| Limits.ConnectionCounter.UndoOne | src/security/limits.rs:39 | takes back the addition of a refused attempt |
| Limits.ConnectionCounter.AcquireConnection | src/security/limits.rs:36-44 | without interference a slot is granted exactly when held slots and pending undos are below the cap, and a refusal changes nothing |
| Limits.ConnectionCounter.ReleaseConnection | src/security/limits.rs:47-49 | gives the slot back |
| Limits.StepKeepsInv | src/security/limits.rs:36-49 | every atomic step keeps counter = held + pending undos and held at most the cap |
| Limits.CounterIsExact | src/security/limits.rs:36-49 | in every interleaving the counter is exact, never under- or overflows, and held connections never exceed the cap |
| Limits.RefusalIsWarranted | src/security/limits.rs:36-44 | every refusal falls in an unbroken stretch of pending undos that began when exactly the cap was held |
| Limits.RefusalWithFreeSlot | src/security/limits.rs:31-44 | a run of two threads in which an attempt is refused although a slot is free |
| Limits.RefusalsMeanFullIff | src/security/limits.rs:31-44 | in every run every refusal finds the cap reached by held slots if and only if there is at most one thread |
| Limits.Conservation | src/server.rs:1255-1261 | held slots are acquisitions minus releases and pending undos are refusals minus undos, over every run |
| UpstreamFilter.PortRoundTrip | src/security/upstream_filter.rs:39-50 | a printed 16-bit port parses back to itself |
| UpstreamFilter.ParseU16Iff | src/security/upstream_filter.rs:39-50 | the port parser reads exactly the 16-bit numbers in decimal, with any zeros and at most one plus sign in front |
| UpstreamFilter.SplitHostAndPort | src/security/upstream_filter.rs:44-54 | a colon-free unbracketed host and any accepted port spelling split into their parts |
| UpstreamFilter.SplitBracketed | src/security/upstream_filter.rs:36-43 | bracketed hosts split at the closing bracket, with and without a port |
| UpstreamFilter.SplitBare | src/security/upstream_filter.rs:44-54 | an unbracketed authority without a colon or with two or more is all host |
| UpstreamFilter.SplitUndoesPrinting | src/security/upstream_filter.rs:35-55 | all four printed forms split back into host and port |
| UpstreamFilter.SplitWithPortIff | src/security/upstream_filter.rs:35-55 | a host and port are reported exactly for the authorities printed from them |
| UpstreamFilter.MapIntoRoundTrip | src/security/upstream_filter.rs:70-74 | the IPv4 address inside a mapped IPv6 address is recovered |
| UpstreamFilter.MappedJudgedByV4 | src/security/upstream_filter.rs:69-118 | an IPv4-mapped address is restricted exactly when the IPv4 address is, and allowed whenever it is |
| UpstreamFilter.RestrictedIsBlockUnion | src/security/upstream_filter.rs:57-67 | the octet tests describe exactly the union of twelve CIDR blocks |
| UpstreamFilter.RestrictedV6Ranges | src/security/upstream_filter.rs:69-80 | an IPv6 address that embeds no IPv4 address is restricted exactly when it is unspecified, loopback or in one of three ranges |
| UpstreamFilter.MappedIff | src/security/upstream_filter.rs:70-74 | an IPv6 address embeds an IPv4 address exactly when it is the mapping of one |
| UpstreamFilter.RestrictedIsInternal | src/security/upstream_filter.rs:57-104 | restricted are exactly the addresses that are, or embed, an IPv4 address of the twelve blocks, and the IPv6 addresses of the listed ranges |
| UpstreamFilter.AllowedIff | src/security/upstream_filter.rs:106-118 | the filter refuses exactly the internal addresses that no network of the allowlist contains, themselves or as the IPv4 address they embed |
| UpstreamFilter.LoopbackNeedsAllowlist | src/security/upstream_filter.rs:85-104 | loopback is refused in every spelling without an allowlist, and a public address never |
| UpstreamFilter.UpstreamAllowedIff | src/security/upstream_filter.rs:141-154 | an upstream address is refused exactly when its host is the literal of an internal address outside the allowlist |
| UpstreamFilter.LiteralJudgedInEveryForm | src/security/upstream_filter.rs:141-154 | an address literal is judged alike in every printed form |
| Resolver.PinningResolver.Cached | src/resolver.rs:60-70 | answers an unexpired entry and removes an expired one |
| Resolver.PinningResolver.Store | src/resolver.rs:72-84 | empties a full cache, then inserts with expiry after the ttl |
| Resolver.PinningResolver.Check | src/resolver.rs:106-127 | lets through exactly non-empty answers none of whose addresses is internal and outside the allowlist, with the error the code gives otherwise |
| Resolver.PinningResolver.ResolveChecked | src/resolver.rs:99-131 | a hit ignores DNS; a miss returns and stores the vetted answer or fails; everything cached or returned is vetted; the whole new cache |
| Resolver.StepIsSafe | src/resolver.rs:60-131 | every atomic step keeps cache and calls vetted and the cache within its bound |
| Resolver.AlwaysVetted | src/resolver.rs:99-131 | in every interleaving every cached or returned list is non-empty and wholly allowed, and the cache holds at most 4096 hosts |
| Resolver.NothingInternalEscapes | src/resolver.rs:99-131 | in every interleaving every cached or returned address in a restricted range is covered by the allowlist, and with an empty allowlist there is none |
| Resolver.AnswerJudged | src/resolver.rs:106-127 | a DNS answer is taken as it is exactly when it is non-empty and names no internal address outside the allowlist, and fails with the code's error otherwise |
| Resolver.CallAlone | src/resolver.rs:99-131 | the three steps of a call without others in between hit, ask, judge, store and return as one whole call |
| Resolver.CacheMatchesHistory | src/resolver.rs:60-84 | an entry is the last store for its host, and an unexpired last store has its entry |
| Resolver.LookupMeansHistory | src/resolver.rs:60-70 | every lookup of every run answers the last store for the host made less than a ttl ago, and misses otherwise |
| Resolver.PinnedUntilExpiry | src/resolver.rs:99-131 | until expiry, another store for the host or a full-cache clear, every new call returns the stored list whatever DNS says |
| AbSplit.GroupShare | src/absplit.rs:84-100 | each group owns exactly its weight of the points, a zero-weight group none |
| AbSplit.PickGroup | src/absplit.rs:85-100 | the 32-bit loop ends at the first group whose running sum exceeds the point; for every point below the total there is one, so it does not fall through |
| AbSplit.PickIsOwner | src/absplit.rs:84-100 | when the weights fit 32 bits that group is the owner of the point |
| AbSplit.CanAssignIffPositive | src/absplit.rs:84-100 | the names a split can assign are then exactly those of its groups of positive weight |
| AbSplit.SplitIsProportional | src/absplit.rs:84-100 | of any W consecutive 32-bit hash values, W being the sum of the weights, exactly as many assign a session to a group name as the groups of that name weigh |
| AbSplit.AssignedAlike | src/absplit.rs:84 | hash values that agree modulo 2^32 are assigned alike, and only the hash of the session and the split's own name counts |
| AbSplit.RouterKeepsLast | src/absplit.rs:41-60 | of several splits with one name the last is the one found |
| AbSplit.AbSplitRouter.constructor | src/absplit.rs:41-60 | fills the split map, later splits replacing earlier ones, with an empty session table |
| AbSplit.AbSplitRouter.Resolve | src/absplit.rs:69-103 | unknown splits give nothing, a pinned session its pinned group, anything else the pure assignment, which a sticky split pins |
| AbSplit.CallAlone | src/absplit.rs:69-103 | the two steps of a call without others in between answer and pin as one whole resolve |
| AbSplit.StepKeepsInv | src/absplit.rs:69-103 | when no two sticky splits in use can disagree, every atomic step keeps every table entry and every answer equal to the pure assignment |
| AbSplit.TableIsInvisible | src/absplit.rs:69-103 | in every interleaving every answer is the pure hash assignment and the table stays within its bound |
| AbSplit.TableHoldsAssignments | src/absplit.rs:90-97 | whatever the configuration, the table holds at most 10,000 entries, all of them assignments of sticky splits that were looked up |
| AbSplit.CrossTalkShows | src/absplit.rs:72-76 | two sticky splits that can disagree do so in some run, for any session |
| AbSplit.TransparentIff | src/absplit.rs:69-103 | for the splits in use and for any session, the table is invisible to that session for every hash and run if and only if no two sticky ones can disagree; one sticky split is enough |
| Routing.ValidateIff | src/config.rs:609-713 | the modelled checks pass exactly for blocks whose splits, pools and locations are in order |
| Routing.RouterMatchesList | src/handler.rs:629-657 | with distinct names the router and the block's list agree on every split |
| Routing.GroupHasPool | src/config.rs:621-632 | in a validated block a group name leads to a pool exactly when the first split of that name has such a group |
| Routing.AnswersIff | src/absplit.rs:69-103 | over all hashes and earlier requests, a split answers a client exactly the group names it can assign or, if sticky, can find pinned by a sticky split in use, and always one |
| Routing.SelectsTarget | src/handler.rs:628-651 | a split location sends a request to an upstream if and only if it is the first of the name that the first group so called in the first split of that name refers to, and answers 502 otherwise |
| Routing.SplitRoutesIff | src/handler.rs:628-651 | a split location sends a client, for every hash and every run of earlier requests, to a pool that meets a demand if and only if every name its split can answer has such a target |
| Routing.SelectsPlain | src/handler.rs:654-658 | a location without a split sends every request to its own upstream, else to the first shared one, and answers 502 without either |
| Routing.PlainRoutesIff | src/handler.rs:654-658 | a location without a split does so if and only if its own or else the first shared upstream meets the demand |
| Routing.RoutingTotalIff | src/handler.rs:623-659 | every proxy location of a validated block finds an upstream for every hash and run of earlier requests if and only if it has no split or every name its split can answer leads to a pool |
| Routing.DistinctNamesRouteIff | src/handler.rs:628-651 | with distinct split names that is so if and only if its split is not sticky or knows every name that can be pinned; one sticky split in use is enough |
| Routing.DuplicateNamesStrand | src/handler.rs:630-636 | a validated block with two splits of one name whose location answers 502 |
| Routing.StickySplitsStrand | src/handler.rs:630-638 | a validated block with distinct names and two sticky splits whose location answers 502 to a pinned client |
| Routing.SelectedPoolHasServersIff | src/config.rs:687-711 | every validated proxy location selects a pool with servers if and only if, with a split, every name the split can answer leads to a pool with servers, and, without one, its own upstream is absent or has servers |
| Routing.EmptyPoolSelected | src/config.rs:698-711 | a validated block whose location without a split selects an empty inline pool |
| Routing.EmptySplitPoolSelected | src/config.rs:621-632 | a validated block whose split location selects an empty pool |
| Locations.FindLocation | src/handler.rs:532-563 | returns the earliest matching exact or regex entry, else the earliest longest non-empty matching prefix, else nothing |
| Locations.ChosenIsUnique | src/handler.rs:532-563 | list, path and regexes settle one entry, and none exactly when nothing matches |
| Locations.PrefixOrderIrrelevant | src/handler.rs:532-563 | reordering prefix entries among the others never changes the pattern and kind chosen |
| Locations.RequestServedIff | src/handler.rs:532-659 | a request whose path leads to a proxy entry of a validated block finds a pool that meets a demand, for every hash and every run of earlier requests, if and only if every name its split can answer, given the splits whose locations some path leads to, leads to such a pool, or without a split its own or the first shared pool is one |
| Locations.EmptyPrefixUnused | src/handler.rs:543-550 | a split named only by entries with an empty prefix is never looked up |
| Locations.ChosenForOwnPattern | src/handler.rs:532-563 | a prefix entry is chosen for its own pattern unless an exact or regex entry takes it or an earlier prefix entry repeats it |
| Locations.RequestStranded | src/handler.rs:628-651 | a validated block with two sticky splits, each reached by its own path, where a client that asked for the one path gets 502 on the other |
| Headers.StripHopByHop | src/security/headers.rs:40-58 | removes exactly the hop-by-hop headers and those nominated by Connection |
| Headers.ValidNameIff | src/security/headers.rs:40-58 | the names that can be nominated are the non-empty words of visible characters without delimiters |
| Headers.ApplyForwardingPolicy | src/security/headers.rs:76-122 | rewrites the attribution headers as the policy function says |
| Headers.Forward | src/proxy.rs:123-173 | assembles the upstream header map on a clone, or fails with 502 |
| Headers.StripIdempotent | src/security/headers.rs:35-58 | stripping twice is stripping once |
| Headers.PolicyFrame | src/security/headers.rs:76-122 | the policy changes nothing but attribution headers |
| Headers.ExactlyOneHost | src/proxy.rs:123-173 | one Host is sent, the client's first or the upstream address; assembly fails exactly when the upstream URI does not parse, or there is no client Host and the address is no legal header value |
| Headers.NothingHopByHopSurvives | src/security/headers.rs:35-58 | no hop-by-hop header and no nominated header is sent, other than those the proxy stamps |
| Headers.NominatedValueIsNotForwarded | src/security/headers.rs:40-58 | a nominated header that is sent carries only a value the proxy made |
| Headers.OthersPassThrough | src/proxy.rs:161-163 | every other header keeps all its values in order |
| Headers.AttributionDoesNotInterfere | src/security/headers.rs:69-98 | with the policy on and an untrusted client, requests that differ only in attribution headers are sent identically |
| Headers.TrustedForwardedForGrows | src/security/headers.rs:85-106 | a trusted client's visible X-Forwarded-For values are kept and its address appended |
| Headers.TrustedAttributionKept | src/security/headers.rs:107-121 | a trusted client's other attribution headers are sent as they came |
| Headers.AttributionRewritten | src/security/headers.rs:100-121 | every attribution header not honoured is rewritten from the client address, the scheme and the original host, and Forwarded is dropped |
| Headers.NominationsParsed | src/security/headers.rs:41-48 | Connection lines nominate exactly the names they list, on every line, in letters of either case and with any blanks, except Host and Content-Length; an unprintable line nominates nothing |
| Headers.JoinAppend | src/security/headers.rs:85-98 | values are joined with a comma and a blank |
| Headers.VisibleOnlyAppend | src/security/headers.rs:85-98 | of the client's X-Forwarded-For values exactly the printable ones are kept, in order |
| Utf8.AsciiVariantSame | src/static_file.rs:166 | exchanging ASCII bytes for ASCII bytes does not change UTF-8 validity |
| Utf8.EncodeInvertsChars | src/static_file.rs:166 | the characters read from a valid text are scalar values that encode back to its bytes |
| Utf8.CharsInvertEncode | src/static_file.rs:166 | every sequence of scalar values encodes to a valid text with those characters |
| Decoding.HexPairIff | src/static_file.rs:152-155 | two bytes are read as the value whose hex digits they are, in either case, or as the digit behind a plus sign, and refused otherwise |
| Decoding.StaticUrlDecode | src/static_file.rs:143-167 | the loop computes the token-wise decoding with `+` as a space |
| Decoding.ValidatorUrlDecode | src/security/uri_validate.rs:84-105 | the loop computes the token-wise decoding that keeps `+` and takes a truncated escape literally |
| Decoding.StaticDecodeIff | src/static_file.rs:143-167 | a text is returned exactly for its spellings, and exactly UTF-8 texts are returned |
| Decoding.DecodeInvertsEncode | src/static_file.rs:139-167 | decoding inverts every percent-encoding of every UTF-8 text, in either hex case |
| Decoding.StaticImpliesValidator | src/security/uri_validate.rs:84-105 | whatever the static decoder accepts the validator's accepts, with the same tokens up to an unescaped `+` being a space |
| Decoding.OnlyTruncationDiffers | src/security/uri_validate.rs:89-101 | among inputs the validator's decoder accepts, the static one refuses exactly those whose scan reaches a truncated escape |
| UriScan.Scan | src/security/uri_validate.rs:55-73 | the loop ends with the first overlong escape, surrogate half or panicking slice, and clean exactly when there is none |
| UriScan.PanicFreeIff | src/security/uri_validate.rs:55-73 | on a valid text it is free of panics if and only if every `%` whose slice, three or six bytes on, would cut a character comes after an overlong or surrogate escape |
| UriScan.ScanCanPanic | src/security/uri_validate.rs:57-59 | a valid text on which it panics |
| UriScan.ScanOnDecodable | src/security/uri_validate.rs:53-79 | on texts the decoder accepts it never panics, and refuses exactly those with an escaped 0xE0, as overlong |
| UriScan.WellFormedRefused | src/security/uri_validate.rs:59-61 | a well-formed encoded character that is refused as overlong |
| StaticPath.ServeFile | src/static_file.rs:40-50 | the string stages give the path to open or the status 400, 403 or 404 |
| StaticPath.OpenedPathStaysBeneath | src/static_file.rs:40-57 | an opened path is non-empty and relative, has no NUL or alternative separator, and resolved component by component only descends, through its named components, so it never leaves the root |
| StaticPath.PlainPathIsOpened | src/static_file.rs:40-57 | every percent-encoding of a slash and a plain path is opened as that path |
| StaticPath.BadRequestIff | src/static_file.rs:40 | 400 is answered exactly when the request path spells no UTF-8 text |
| StaticPath.RefusalIff | src/static_file.rs:41-50 | 403 is answered exactly for texts with two dots in a row or a NUL, 404 exactly for texts of nothing but slashes of any kind, and otherwise the path opened is the text without its leading slashes, the others written as `/` |
| StaticPath.ComponentsJoin | src/static_file.rs:169-173 | the components of the reference resolution lose nothing and hold no separator |
| Reload.StepKeepsInv | src/server.rs:484-532 | every step of handler, renewal task or accept loop keeps the invariant of every listener |
| Reload.ReloadInvariant | src/server.rs:1217-1237 | in every interleaving each listener has a notification pending or in work, or the handler is between write and send, or it has processed the current configuration |
| Reload.UpToDateAtRest | src/server.rs:484-532 | at rest every running listener has the current block at its index, or keeps the last one it had if the index is gone, and a TLS listener with an ssl section has, if its last build succeeded, an acceptor made from that block or from the certificate on disk, and none if it failed |
| Reload.AcceptorFollowsBuild | src/server.rs:451-517 | in every run a listener has an acceptor exactly when the last build among its steps succeeded, and a TLS loop that started with an ssl section has attempted one |
| Reload.HasAcceptorIff | src/server.rs:451-463 | besides, a listener that never had an ssl section has no acceptor, and a QUIC loop runs exactly as long as it has one |
| Reload.VersionsNeverDecrease | src/server.rs:487-498 | no step takes a listener back to an older configuration |
| Reload.ListenerComesToRest | src/server.rs:475-532 | a listener can take a step exactly when it is not at rest, and has at most eight steps of work however many messages it missed |
| Reload.OwnStepReducesOwnWork | src/server.rs:475-532 | every step of a listener takes exactly one off that work unless its task ends: one missed message costs one reload, more than one, two |
| Reload.EveryScheduleConverges | src/server.rs:484-532 | once no sender is about to send, every schedule of listener steps, however builds turn out, has at most eight steps per listener, keeps configuration and certificates, and can go on exactly until all are at rest |
| Reload.ServerConverges | src/server.rs:484-532 | from every such state some schedule reaches rest |
| Reload.QuicCertificateFrozen | src/server.rs:976-994 | no step changes the acceptor of a started QUIC listener |
| Reload.RenewalReachesIff | src/server.rs:1161-1166 | in every run whose builds succeed and that rests in a configuration, listeners of a kind and index serve the certificate on disk if and only if they are ACME TLS loops and that configuration has their block with an ssl section |
| Reload.RenewalMissed | src/server.rs:493-532 | in all other cases some run rests with such a listener not on the renewed certificate |
| Reload.RenewalMissesQuic | src/server.rs:976-994 | for every configuration a run rests in it with a QUIC listener on the old certificate |
| Reload.RenewalMissesTls | src/server.rs:493-532 | a run that rests with a TLS listener on the old certificate, its block having been removed |
| Startup.BindHttp | src/server.rs:177-214 | binds in order up to the first failure and sorts the sockets into served at once, deferred and QUIC |
| Startup.BindAll | src/server.rs:177-244 | binds every HTTP, stream and mail socket, succeeding exactly when every bind does |
| Startup.SortQuic | src/server.rs:293-319 | sorts bound QUIC sockets into those served at once and those deferred |
| Startup.Drain | src/server.rs:334-368 | the remove-in-place loop serves exactly the block's listeners in order and leaves exactly the others |
| Startup.ServeFreed | src/server.rs:334-393 | one issuance serves the block's deferred TLS and then QUIC listeners |
| Startup.IssueAll | src/server.rs:324-402 | issues block by block, stops at the first failure, and on success leaves no deferred listener |
| Startup.Run | src/server.rs:133-402 | every startup follows the plan up to the first failure, and to the end exactly when everything succeeds |
| Startup.StartupOrder | src/server.rs:168-250 | in every startup binds precede the drop, which precedes everything served or issued |
| Startup.ServedOnlyAfterDrop | src/server.rs:246-319 | nothing is served before every socket is bound and privileges are dropped |
| Startup.ServedOnlyWithCertificate | src/server.rs:321-393 | a TLS or QUIC listener of an ACME block is served only after that block's certificate was issued, whatever fails |
| Startup.ServedBeforeIssuance | src/server.rs:263-266 | everything that needs no certificate is served before the first issuance is tried, whatever fails |
| Startup.EachServedExactlyOnce | src/server.rs:252-402 | a successful startup serves every stream, mail, TCP and TLS listener and every usable QUIC listener exactly once, and nothing else |
| Startup.EachBoundExactlyOnce | src/server.rs:177-244 | every listener of known protocol and every stream and mail listener is bound exactly once |

## Left out

- Socket I/O and the hyper, quinn, h3 and rustls plumbing: connection serving, CONNECT copying, stream and mail loops.
- TLS configuration, the ACME client and its retry loop, GeoIP, logging, privilege system calls: only their outcomes appear, as oracles.
- Rewrite rules and regex matching: an opaque predicate.
- Configuration parsing, defaults and the remaining checks of `Config::validate` (listen addresses, CIDRs, TLS versions, file permissions): they would only add easy members.
- The textual pre-checks of `validate_uri`, which run before its index scan: plain substring tests.
- `openat2`, symlinks and MIME types: the model stops at the relative path that is opened.
- Memory pressure, body limits, method and host checks, the bare-LF scan: settled by reading one branch.
- Shutdown: the reload model covers the time before a shutdown signal.
- The drop of a spawned connection task that was never polled, whose slot is not returned: it can happen only while the runtime shuts down.
- Balance.Balancer.Candidates: least-conn works on one snapshot of the gauges, while the code re-reads them inside the comparator.
- Failover.Attempt: no other request runs while the answer is awaited; `Requests.GaugesCountAwaiting` covers every interleaving.
- Failover.DispatchProxy: likewise for a request running alone.
- Balance.RoundRobinIsFair: assumes one server list per pool name, as two lists under one name share a cursor.
- RateLimit.ResetTracker.RecordReset: the counter is unbounded; `CountIsTrailingResets` bounds it by the number of calls.
- Limits.CounterIsExact: assumes that fewer than 2^64 - 10000 threads are between the two instructions of a refused acquire.
- AbSplit.PickGroup: sums of weights wrap at 32 bits, as in a release build; a debug build panics instead.
- Locations.FindLocation: lengths are counted in characters; for prefixes of one path this orders them as the byte lengths do.
- Startup.Run: listen protocols are given by family, and the mail and stream blocks only by their numbers of listeners.
