# go-reauth-proxy: a Dafny model of its stateful core

go-reauth-proxy is an authenticating reverse proxy. This project models the parts of it that
carry state or work on bytes, and proves what they promise. A Go byte string is a Dafny `string`
with one character per byte; a Go object that its methods update is a class with the same fields;
code shared by goroutines is a state machine over the steps the locks make atomic.

- **Gateway log queries** (`BackwardScan`, `CursorPaging`, `PageQuery`, `JsonField`, `LogFilter`,
  `Decimal`). The chunked backward reader with its three reused buffers is proved against
  splitting, for every chunk size. Pagination by byte offset is proved over whole walks while the
  file grows. The one-pass ring-buffer query is compared with the two-pass query and with a plain
  slice of the reversed matches. The member scanner is proved against a grammar of JSON texts.
- **Stream manager** (`StreamReconcile`, `StreamManager`, `TcpListener`, `UdpListener`). Any number
  of `Reconcile` and `Stop` calls interleave step by step; so do loops, connections, sessions and
  `close` calls of a listener. The methods of the class `Manager` are runs of that system with one
  call at a time, and the locked sections of the listener classes are its steps; `Counting` is what both count with.
- **Token-bucket throttle** (`Throttle`, `ThrottleLaws`). The sharded, evicting throttle is compared with
  one map that never evicts, the number of admitted requests is bounded by a potential argument, and
  which requests are admitted is said by the times of a client's requests alone.
- **Firewall** (`FirewallChain`, `FirewallSetUp`, `FirewallHistory`, `FirewallRuns`, `ParentJumps`, `PortPolicy`,
  `PortPolicyLaws`). A kernel chain is a sequence of rules. The chain and its verdicts are expressed by
  the history of decisions, and after a set-up by address ranges; port policies are read from and written to parent chains whose rules are listed as text.
  Which arguments the listing quotes, and how it escapes them, is a parameter.
- **Caches and queues** (`AuthCache`, `AuthCacheHistory`, `CacheKeys`, `EventStore`,
  `EventStoreHistory`). The cache with its identity index and the keys it is used with, and the bounded,
  expiring event queue filtered in place.
- **Byte-level transformations** (`HtmlRewrite`, `CookieIdentity`, `CookieLaws`, `WafFilter`,
  `WafLaws`, `RouteMatch`). Link prefixing, canonical cookies (section 4.2.1 of RFC 6265), rule
  file filtering, rule-id scanning and route matching.

`Bytes` holds string helpers. Each component comes as an imperative part whose methods are proved
against specification functions, and as laws about those functions over all inputs or all runs.

Properties that do not hold without a condition are stated with that condition as an equivalence:

- Throttle eviction is invisible if and only if Burst is at most RequestsPerSecond times the entry TTL
  (`InvisibleExactlyWhen`); requests without an identity are not throttled at all.
- The one-pass page query answers as the two-pass one if and only if every line that passes its raw
  test also matches, or a line on the page does not decode (`OnePassAgrees`). A line that is valid JSON, does
  not decode and is not on the page breaks it (`OnePassDiffers`).
- The two-pass query returns the page asked for, for every listing, if and only if the start of the page
  fits an int or wraps to the greatest one (`PageFitsEveryListing`); for a given listing the condition is
  `PageFits`. Page 2^62 + 1 of four entries each does not fit: it shows page 1 (`PageWraps`).
- A commit leaves a listener for each rule and no other if and only if its call removes all that the map has
  beyond its rules and finds there all it did not bind (`CommitAgreesExactlyWhen`). It does when no other
  commit and no stop falls between its snapshot and it; two overlapping calls can miss it
  (`OverlappingCallsDisagree`).
- After a run without built-in local prefixes and the all-addresses prefix, deciding on a source or taking
  that back keeps the chain base rules, standing decisions and tail, if and only if the source is neither
  of these, or all addresses are taken back and there was no final DROP (`ShapeExactlyWhen`). After
  every run the chain is the formula of `ChainFormula`.
- Deleting by the listing removes exactly the removable jumps if and only if no line reads back as another
  rule that jumps and is itself listed in quotes (`DeletedExactlyWhen`); `UnsafeChain` is a chain that has
  such a line. On chains without one, which are called safe here, the old jumps are all gone if and only if
  none has an argument that the listing quotes; on any chain they are gone if none has (`OldJumpsGone`). A
  second synchronisation changes nothing if and only if the first one left safe parents
  (`SecondSyncChangesNothing`).
- A cache store keeps the identity index exact if and only if it does not move its key to another identity
  (`StoreKeepsExact`). The keys of the program never move, unless its hash collides on a text that it
  stored under (`KeysDetermine`). For keys that do, an invalidation never misses an entry, and removes one
  of another identity if and only if its key was stored under an invalidated one and has not left the cache
  under that one since (`InvalidationExactlyWhen`).
- The cookie map gives the canonical identity if and only if the cookies are beyond the limit, or no cookie
  with a value is followed by another of its name (`FormsAgree`).

## Model

| member | source | states |
|---|---|---|
| BackwardScan.ScanLinesBackward | pkg/gatewaylog/manager.go:1246-1321 | for every file, end offset and chunk size of at least 1, the callback sees exactly the newline-separated lines of the prefix, last first, each with its true start, trailing CRs cut and then-empty lines skipped, until it asks to stop |
| BackwardScan.ReadChunk | pkg/gatewaylog/manager.go:1258-1280 | the chunk followed by the previous remainder, whichever of the reused buffers holds it |
| BackwardScan.ScanCombined | pkg/gatewaylog/manager.go:1287-1308 | reporting the lines that start inside the combined bytes and keeping the rest loses and repeats nothing |
| BackwardScan.Keep | pkg/gatewaylog/manager.go:1310 | the kept remainder equals the combined bytes before the first reported line although its storage is reused |
| BackwardScan.BackLinesReverse | pkg/gatewaylog/manager.go:1287-1320 | cutting lines off from the right yields the lines split from the left, reversed |
| BackwardScan.FirstTrim | pkg/gatewaylog/manager.go:1281-1285 | cutting CR and LF at the end of the file before the first pass changes no reported line |
| BackwardScan.BackLinesCut | pkg/gatewaylog/manager.go:1287-1308 | the bytes behind the last newline are the last line, and the bytes before it hold the others |
| BackwardScan.LastLine | pkg/gatewaylog/manager.go:1314-1320 | what remains at the start of the file is one line at offset 0 |
| CursorPaging.QueryEntriesByCursor | pkg/gatewaylog/manager.go:1041-1103 | a query returns the newest `limit` matches before its cursor, whether older ones exist, and the cursor to go on; every item comes from a line before the cursor that meets all tests of the filter, and each such line is on the page or below it; a missing file is an empty page |
| CursorPaging.PageLists | pkg/gatewaylog/manager.go:1041-1103 | the page in the terms of the filter alone: its items are entries of lines that pass the line, raw-field, object and entry tests, and each such line is on the page or before the cursor it hands out |
| CursorPaging.CursorErrors | pkg/gatewaylog/manager.go:1230-1244 | a cursor is refused exactly when its trimmed text is no 64-bit number, or a number outside the file |
| LogFilter.AcceptsExactly | pkg/gatewaylog/manager.go:1163-1197 | the tests of both scans, in their order, take exactly the lines that pass the line test, the raw-field test and the object test, and whose entry passes the entry test |
| CursorPaging.ScanIsPage | pkg/gatewaylog/manager.go:1069-1102 | what the callback's variables hold after the scan is the page read off the list of all matches |
| CursorPaging.OlderMatches | pkg/gatewaylog/manager.go:1060-1103 | the matches of the text before a match are the matches after it in the listing, and starts strictly decrease |
| CursorPaging.CursorResolves | pkg/gatewaylog/manager.go:1230-1244 | the cursor a page hands out parses back, on any grown file, to the offset of its oldest item, and the next page continues right behind it |
| CursorPaging.CursorWalk | pkg/gatewaylog/manager.go:1041-1103 | following next_cursor from the empty cursor yields each match of the file as it stood at the first call exactly once, newest first, full pages but the last, with decreasing cursors, while lines are appended |
| PageQuery.RawLineTailWindow.constructor | pkg/gatewaylog/manager.go:998-1003 | an empty ring; a capacity that is not positive gives a ring that keeps nothing |
| PageQuery.RawLineTailWindow.Add | pkg/gatewaylog/manager.go:1005-1017 | the ring always holds the last lines added, up to its capacity, in order |
| PageQuery.RingAdd | pkg/gatewaylog/manager.go:1005-1017 | writing behind the window or over its oldest cell is appending and keeping the last ones |
| PageQuery.RawLineTailWindow.DecodeEntriesDescending | pkg/gatewaylog/manager.go:1026-1039 | the entries of a window slice, newest first, or failure exactly when one does not decode |
| PageQuery.WindowInRange | pkg/gatewaylog/manager.go:1105-1117 | within the int range, the wrapped window arithmetic selects the page counted from the end |
| PageQuery.TwoPassIsPageExactlyWhen | pkg/gatewaylog/manager.go:969-1117 | for every page, limit and listing: the two passes return that page of the matches, newest first, if and only if the page fits |
| PageQuery.PageFitsEveryListing | pkg/gatewaylog/manager.go:1105-1117 | a page is right for all listings if and only if its start fits an int or wraps to the greatest int |
| PageQuery.PageWraps | pkg/gatewaylog/manager.go:1105-1117 | a page that does not fit: 2^62 + 1 with a limit of four shows page 1, for every listing that is not empty |
| PageQuery.RoomWithinLimit | pkg/gatewaylog/manager.go:969-990 | the room asked for the items is at most the limit, whatever wrapped |
| PageQuery.ScanMatchingRawLinesToTail | pkg/gatewaylog/manager.go:1119-1161 | counts the lines that pass the raw test and leaves the last of them in the ring |
| PageQuery.CollectMatchingEntries | pkg/gatewaylog/manager.go:1168-1228 | exactly the matches numbered from start to end, although the scan stops early |
| PageQuery.CountMatchingEntries | pkg/gatewaylog/manager.go:969-977 | the number of matching lines |
| PageQuery.QueryTwoPass | pkg/gatewaylog/manager.go:969-990 | the two-pass answer over the list of matches |
| PageQuery.QueryRawTail | pkg/gatewaylog/manager.go:945-967 | the ring-buffer answer, with its fallback, as a function of the lines that pass the raw test |
| PageQuery.QueryEntries | pkg/gatewaylog/manager.go:926-943 | when every line that passes the raw test matches, the answer is that page of the reversed matches, its total and has_more, if and only if the page fits, whichever form produced it; then, and for filters that need decoding, each item is the entry of its own line that meets all tests, and the total counts these lines |
| PageQuery.MatchesExactly | pkg/gatewaylog/manager.go:1163-1211 | the matches are the entries of the lines that meet all tests of the filter, each once and in order |
| PageQuery.TwoPassLists | pkg/gatewaylog/manager.go:969-990 | for any page and limit the two-pass total is the number of those lines, and each item is the entry of another one of them |
| PageQuery.AllMatchExactlyWhen | pkg/gatewaylog/manager.go:1119-1161 | the one-pass test takes only lines that meet all tests if and only if the filter needs decoding or every line that passes the tests without decoding meets the others too |
| PageQuery.TwoPassIsPage | pkg/gatewaylog/manager.go:969-990 | a page whose product with the limit fits an int is the page of the matches, newest first |
| PageQuery.WindowInRing | pkg/gatewaylog/manager.go:945-967 | the window never starts before the oldest line kept in the ring |
| PageQuery.OnePassAgrees | pkg/gatewaylog/manager.go:945-990 | the one-pass answer is the two-pass answer exactly when every raw match is a match or a line on the page fails to decode |
| PageQuery.OnePassDiffers | pkg/gatewaylog/manager.go:945-990 | an input that misses the condition: an older line that is valid JSON and does not decode is counted in one pass only |
| PageQuery.PagesPartition | pkg/gatewaylog/manager.go:926-990 | pages 1, 2, ... put together are the listing, and has_more marks all but the last |
| PageQuery.ModesAgree | pkg/gatewaylog/manager.go:926-1103 | page mode and cursor mode list the same entries in the same order for filters that ignore trailing CRs |
| JsonField.RawJSONFieldValue | pkg/gatewaylog/manager.go:835-860 | the loop is the depth-counting scan that the grammar results below are about |
| JsonField.RawJSONTopLevelFieldValueAt | pkg/gatewaylog/manager.go:862-883 | the value behind a quoted name and colon, only when the quoted text is the name |
| JsonField.SkipJSONString | pkg/gatewaylog/manager.go:885-895 | the quote that ends a string, escaped quotes and backslashes passed over |
| JsonField.ScanValue | pkg/gatewaylog/manager.go:835-860 | a whole value inside an object is passed over: nested members and string contents never mislead |
| JsonField.FindsTopLevelMember | pkg/gatewaylog/manager.go:835-895 | for every JSON object of sections 4 and 7 of RFC 8259 the scan returns the text at the value of the first top-level member of that name, and nothing when there is none |
| JsonField.RawJSONIntField | pkg/gatewaylog/manager.go:803-817 | the number of the leading digits of the member, with 64-bit wrap-around |
| JsonField.RawJSONBoolField | pkg/gatewaylog/manager.go:819-833 | the flag exactly when the member's text starts with true or false |
| JsonField.ReadsNumber | pkg/gatewaylog/manager.go:803-817 | a member holding an unsigned integer is read with all its digits |
| JsonField.ReadsFlag | pkg/gatewaylog/manager.go:819-833 | a member holding true or false is read as that flag |
| Decimal.ParseFormat | pkg/gatewaylog/manager.go:1230-1244 | a formatted offset survives trimming and parses back to itself |
| Decimal.TrimmedExactly | pkg/gatewaylog/manager.go:1230-1244 | trimming takes away all ASCII white space at both ends and nothing else |
| Throttle.Normalize | pkg/proxy/reverse_proxy_throttle.go:56-71 | an enabled config ends up with positive numbers, 100, 200 and 30 for those that are not; a sensible one is unchanged |
| Throttle.ReverseProxyThrottle.constructor | pkg/proxy/reverse_proxy_throttle.go:46-54 | 64 empty shards under the normalised config |
| Throttle.ReverseProxyThrottle.UpdateConfig | pkg/proxy/reverse_proxy_throttle.go:73-89 | disabling forgets every bucket, any other change keeps them |
| Throttle.ReverseProxyThrottle.Evaluate | pkg/proxy/reverse_proxy_throttle.go:91-164 | one request changes its own shard alone, which becomes the shard and decision of the specification; without an identity, or disabled, it is admitted and changes nothing |
| Throttle.ReverseProxyThrottle.CleanupLocked | pkg/proxy/reverse_proxy_throttle.go:183-202 | a cleanup that is due drops exactly the entries not blocked and idle beyond the TTL, in any order of visiting |
| Throttle.RunRefines | pkg/proxy/reverse_proxy_throttle.go:91-210 | with Burst at most RPS times TTL, every request sequence gets the decisions of one map that never evicts |
| Throttle.EvictionShows | pkg/proxy/reverse_proxy_throttle.go:183-210 | with a larger Burst every client has a request sequence that gets different decisions |
| Throttle.InvisibleExactlyWhen | pkg/proxy/reverse_proxy_throttle.go:91-210 | shards and eviction are invisible to every run if and only if Burst is at most RPS times TTL |
| Throttle.NoIdentityNoLimit | pkg/proxy/reverse_proxy_throttle.go:97-100 | in every run requests without an identity are admitted, whatever the others do |
| Throttle.RunPays | pkg/proxy/reverse_proxy_throttle.go:122-164 | admissions and the tokens left are paid by the tokens at the start, a burst per ended block and the time passed |
| Throttle.BlocksTakeTime | pkg/proxy/reverse_proxy_throttle.go:122-164 | k ended blocks took at least k times BlockSeconds |
| Throttle.OnceBlocked | pkg/proxy/reverse_proxy_throttle.go:122-164 | NewlyBlocked is reported once for every block of a bucket |
| Throttle.BlockedUntilThen | pkg/proxy/reverse_proxy_throttle.go:122-164 | a blocked bucket admits nothing before blockedUntil |
| Throttle.ClientStaysBlocked | pkg/proxy/reverse_proxy_throttle.go:91-164 | in every mixed run, for any configuration and from any state of the shards, a client that is refused until some time is refused at each of its requests before that time, with the same time and no new report |
| Throttle.AdmissionBound | pkg/proxy/reverse_proxy_throttle.go:91-210 | with Burst at most RPS times TTL, in every mixed run of the sharded throttle a client is admitted at most Burst(1+k)+RPS(t-t0) times between its first request and a later one, with k ended blocks, which took k times BlockSeconds and were reported once each |
| ThrottleLaws.ClientExactly | pkg/proxy/reverse_proxy_throttle.go:91-210 | with Burst at most RPS times TTL, in every mixed run of the sharded throttle: a request before the end of its client's block is refused with that block; any other is admitted if and only if no stretch of the client's requests since the last block is more than Burst and RPS times its length, and otherwise blocks the client for BlockSeconds |
| ThrottleLaws.ServedAgain | pkg/proxy/reverse_proxy_throttle.go:91-210 | for any configuration and in every mixed run, a client that was blocked is served from the end of the block on: its requests are admitted as long as no stretch of them is more than Burst and RPS times its length |
| ThrottleLaws.BurstAfterBlock | pkg/proxy/reverse_proxy_throttle.go:137-142 | so the first request of a client at or after the end of its block is admitted, and its next Burst - 1 requests are too |
| ThrottleLaws.ServedAtFirst | pkg/proxy/reverse_proxy_throttle.go:91-164 | a client that was never refused is served in the same way from its first request on |
| StreamReconcile.StepKeeps | pkg/stream/manager.go:149-349 | every step of every interleaved call keeps the ownership invariant |
| StreamReconcile.CommitOverwritesNothing | pkg/stream/manager.go:249-260 | what a call created is under keys the map does not have, so no live listener is overwritten |
| StreamReconcile.ExactlyOneOwner | pkg/stream/manager.go:149-349 | over all interleavings every open listener is owned by exactly one of the map, a call's created set and a pending list |
| StreamReconcile.NothingLeaks | pkg/stream/manager.go:149-349 | when all calls have returned, the open listeners are those of the map, and after a stop no port is held |
| StreamReconcile.ClosedForGood | pkg/stream/manager.go:235-247 | a closed manager stays closed and its map and rules stay empty |
| StreamReconcile.FailingCallChangesNothing | pkg/stream/manager.go:215-247 | in every run, a call that ends in failure changed neither map nor rules at any of its steps |
| StreamReconcile.CommitAgreesExactlyWhen | pkg/stream/manager.go:235-261 | in every reachable state that is not closed, a commit leaves a listener for each rule and no other if and only if its call removes all that the map has beyond its rules and all that it did not bind is in the map |
| StreamReconcile.UndisturbedRunsAgree | pkg/stream/manager.go:149-349 | calls may bind and close side by side: as long as no commit or stop falls between the snapshot and the commit of another call, there is a rule for each listener at all times |
| StreamManager.Manager.NewManagedListener | pkg/stream/manager.go:359-431 | a listener exactly when the IPv4 port is free and not refused; then the IPv6 port when it can be had |
| StreamManager.Manager.BindAll | pkg/stream/manager.go:215-233 | all new keys bound, or the sockets exactly as before; the bind and close steps of its call |
| StreamManager.Manager.PlanRules | pkg/stream/manager.go:149-177 | a map that holds each rule under its own key and nothing else, exactly when no two rules share a key |
| StreamManager.Manager.Commit | pkg/stream/manager.go:249-261 | the created listeners join, the removed ones leave and are handed over for closing; the commit step of its call |
| StreamManager.Manager.Reconcile | pkg/stream/manager.go:149-277 | succeeds exactly when open, without duplicate keys and with no new port refused; then the listeners and the sockets are those of the request, each rule of it is stored under its own key and no other rule is, and kept listeners are the same objects; otherwise nothing changed; the call is a run of the interleaved system |
| StreamManager.Manager.ReconcileBestEffort | pkg/stream/manager.go:279-325 | serves exactly the rules that can join those before them, in order, each stored under its own key, warns once for each other; a run of the interleaved system |
| StreamManager.Manager.Stop | pkg/stream/manager.go:327-349 | closed, empty and without sockets; a run of the interleaved system |
| StreamManager.OverlappingCallsDisagree | pkg/stream/manager.go:149-277 | a run that misses the condition: two overlapping calls succeed and leave a listener without a rule |
| TcpListener.TcpListenerState.BeginConn | pkg/stream/manager.go:480-491 | the step of the accept loop in the close protocol: it keeps its invariant, the caller may serve exactly when the connection is in the table, and a refused one is closed |
| TcpListener.TcpListenerState.EndConn | pkg/stream/manager.go:493-498 | the two last steps of a connection: they keep the invariant, and the table is that of all other connections being served |
| TcpListener.TcpListenerState.MarkClosing | pkg/stream/manager.go:500-516 | the locked step of a call of close: the one that does the work gets exactly the connections being served, any other one is done |
| TcpListener.NoAddAfterClosing | pkg/stream/manager.go:480-532 | once closing is set the count and the table only shrink |
| TcpListener.WaitGroupCounts | pkg/stream/manager.go:433-532 | in every reachable state the wait group counts live loops and unfinished connections |
| TcpListener.CloseLeavesNothing | pkg/stream/manager.go:500-532 | after the closing call returned, every loop has exited, the table is empty and every accepted connection is closed |
| TcpListener.OneCallCloses | pkg/stream/manager.go:500-532 | in every run of any number of calls of close exactly one does the work once closing is set, and a call that returned without waiting left the work to another one |
| UdpListener.UdpListenerState.StoreSession | pkg/stream/manager.go:654-668 | the step of the read loop in the close protocol: it keeps its invariant; a kept session is live; when the id has a live session already and the listener is not closing, that one is handed back |
| UdpListener.UdpListenerState.RemoveSession | pkg/stream/manager.go:670-676 | the step of the session in the close protocol: it keeps its invariant, the session is nowhere in the table, and every other live session stays under its id |
| UdpListener.NoAddAfterClosing | pkg/stream/manager.go:654-710 | once closing is set the count and the table only shrink |
| UdpListener.WaitGroupCounts | pkg/stream/manager.go:600-710 | the wait group counts live loops and stored sessions not done, and an id has at most one live session |
| UdpListener.CloseLeavesNothing | pkg/stream/manager.go:678-710 | after the closing call returned, the table is empty, loops have exited and every dialled upstream is closed, also one dialled for a packet read before the sockets were closed |
| FirewallChain.BaseRuleCountIsExact | pkg/iptables/manager.go:761-821 | the computed count is the number of rules appended before the DROP, for every exempt-port list and state/conntrack fallback |
| FirewallChain.Manager.AppendEstablishedRelatedRule | pkg/iptables/manager.go:823-865 | the state rule, else the conntrack rule, else none and the flag says so; another failure leaves the flag alone |
| FirewallChain.Manager.ApplyBaseRules | pkg/iptables/manager.go:776-821 | the base rules and one DROP are appended, other tables untouched |
| FirewallChain.Manager.Flush | pkg/iptables/manager.go:378-408 | every table becomes base rules and the DROP, whatever it held |
| FirewallSetUp.PrefixIsRange | pkg/iptables/manager.go:87-98 | a prefix covers the range of addresses that start with its bits |
| FirewallSetUp.SetUpVerdictIPv4 | pkg/iptables/manager.go:776-865 | after a set-up an IPv4 packet is accepted if and only if it is loopback, of a known connection when there is a match for that, from 10.0.0.0 to 10.255.255.255, 172.16.0.0 to 172.31.255.255, 192.168.0.0 to 192.168.255.255 or 169.254.0.0 to 169.254.255.255, ICMP, or to an exempt TCP or UDP port; any other one is dropped |
| FirewallSetUp.SetUpVerdictIPv6 | pkg/iptables/manager.go:776-865 | the same for IPv6, with the ranges of fc00::/7 and fe80::/10 |
| FirewallSetUp.ContainerRangeStays | pkg/iptables/manager.go:87-93 | 172.17.0.0/16 has a rule of its own: after a set-up it stays accepted when any other prefix is taken back, also 172.16.0.0/12 |
| FirewallChain.Manager.DecideIP | pkg/iptables/manager.go:958-1024 | AllowIP and BlockIP take the specification's step in the address's table and no other; an address without table changes nothing |
| FirewallChain.Manager.RemoveIPRule | pkg/iptables/manager.go:1106-1125 | one rule per action is taken out |
| FirewallChain.Manager.EnsureTCPPortRule | pkg/iptables/manager.go:1030-1104 | the port decision's step; an invalid port or address changes nothing |
| FirewallChain.Manager.RemoveTCPPortRule | pkg/iptables/manager.go:1127-1183 | every port rule of the source is gone |
| FirewallChain.Manager.DeleteUntilFailure | pkg/iptables/manager.go:1147-1172 | repeating a delete until it fails removes all equal rules and keeps the order of the rest |
| FirewallChain.Manager.BlockAll | pkg/iptables/manager.go:909-929 | exactly one DROP, at the end of every table |
| FirewallChain.Manager.RemoveBlockAll | pkg/iptables/manager.go:931-956 | no DROP without a condition is left |
| FirewallHistory.ChainShape | pkg/iptables/manager.go:761-1183 | after any run without built-in local prefixes and the all-addresses prefix, the chain is base rules, the standing decisions newest first, and at most one DROP, and the insert position is right behind the base; FirewallRuns.ChainFormula is about every run |
| FirewallHistory.LatestDecisionWins | pkg/iptables/manager.go:761-1183 | after such a run a packet no base rule accepts gets the most recent standing decision that matches it, else the tail; FirewallRuns.NewestDecision is about every run |
| FirewallHistory.ShapeExactlyWhen | pkg/iptables/manager.go:958-1125 | after any such run, deciding on a source or taking it back keeps that shape if and only if the source is neither a built-in local prefix nor all addresses, or all addresses are taken back and there was no final DROP |
| FirewallHistory.LocalPrefixMisplaces | pkg/iptables/manager.go:958-1125 | after any such run, once a built-in local prefix was taken back the next decision lies behind the first rule that follows the base, be it a decision or the final DROP, or nowhere when none follows |
| FirewallHistory.AllAddressesRemoved | pkg/iptables/manager.go:1106-1125 | taking back the all-addresses prefix leaves base rules and standing decisions without a final DROP, so it keeps the shape if and only if there was none |
| FirewallHistory.AllAddressesDecided | pkg/iptables/manager.go:958-1024 | a decision on the all-addresses prefix replaces the final DROP by a rule in front of the standing decisions, which decides every packet no base rule accepts; taking it back leaves no tail |
| FirewallRuns.ChainFormula | pkg/iptables/manager.go:761-1183 | after every run the chain is the base rules but for those of built-in prefixes touched since the last set-up, and a rest that the decisions determine; the insert position lies behind as many rules of the rest as base rules are missing |
| FirewallRuns.OrdinaryRest | pkg/iptables/manager.go:761-1183 | without built-in and all-addresses prefixes no base rule is missing and the rest is the standing decisions and the tail |
| FirewallRuns.RunVerdict | pkg/iptables/manager.go:761-1183 | after every run a packet that a remaining base rule accepts is accepted, and any other one is decided by the rest |
| FirewallRuns.NewestDecision | pkg/iptables/manager.go:958-1104 | after every run a decision on any source goes behind as many other rules as base rules are missing, and is lost when fewer are there: its packets get the verdict of those rules, else that of the decision, if it was not lost |
| ParentJumps.NextRuleField | pkg/iptables/manager.go:1456-1469 | the first run of bytes that are no ASCII white space, what is in front of it is white space, and the rest of the line holds the line's other fields |
| ParentJumps.CollectFields | pkg/iptables/manager.go:1420-1454 | all fields in order, across the fixed array and its overflow list, and whether they jump to the chain |
| ParentJumps.ParentJumpDeleteArgs | pkg/iptables/manager.go:1411-1454 | delete arguments exactly for lines of the parent that jump to the chain |
| ParentJumps.DeleteArgsExactly | pkg/iptables/manager.go:1411-1454 | delete arguments are what follows -A and the parent, exactly when a jump to the chain is among it |
| ParentJumps.ListedRule | pkg/iptables/manager.go:1411-1454 | whatever the tool quotes, a listed rule comes back as its own arguments if none was quoted, and otherwise as arguments one of which holds a quote |
| ParentJumps.DeletedExactlyWhen | pkg/iptables/manager.go:483-511 | deleting by the listing removes exactly the removable jumps and keeps the order of the rest, if and only if no line reads back as another rule that jumps and is itself listed in quotes |
| ParentJumps.QuoteFreeIsSafe | pkg/iptables/manager.go:483-511 | chains whose arguments hold no quotes meet that condition, whatever the tool quotes |
| ParentJumps.UnsafeChain | pkg/iptables/manager.go:483-511 | a chain that misses the condition: the line of a commented rule reads back as another rule, which jumps |
| ParentJumps.UnlinkedIsPart | pkg/iptables/manager.go:483-511 | on any listed chain no removable jump is left and nothing new appears |
| ParentJumps.DeleteParentJumpsToChain | pkg/iptables/manager.go:483-511 | with a listing every line that jumps is acted on in order, as DeletedExactlyWhen is about; the bare jumps are gone in any case, and no other rule without a listing |
| PortPolicy.NormalizePorts | pkg/iptables/manager.go:425-439 | the first occurrence of every port, or an error exactly when one is invalid |
| PortPolicy.DistinctAreFirst | pkg/iptables/manager.go:425-439 | the ports kept are those at the places where no earlier one is equal, in order |
| PortPolicy.AddTCPPortJump | pkg/iptables/manager.go:556-563 | a parent linked for some ports is linked for one more, and a port already linked stays linked once |
| PortPolicy.LinkParent | pkg/iptables/manager.go:638-656 | the parent becomes one jump per port followed by what deleting its jumps leaves, on any chain |
| PortPolicy.LinkParents | pkg/iptables/manager.go:638-656 | every name in turn is linked, when the parent exists; a name that is listed twice is linked twice |
| PortPolicy.ApplyPolicy | pkg/iptables/manager.go:677-739 | the chain holds local, blocked, allowed rules of the family in that order, and the default |
| PortPolicy.ClearTable | pkg/iptables/manager.go:513-519 | the links are gone, and the chain too unless a rule still refers to it |
| PortPolicy.SyncTable | pkg/iptables/manager.go:623-667 | one table's part, failing exactly when an active table would link the chain into itself |
| PortPolicy.Firewall.Sync | pkg/iptables/manager.go:565-675 | invalid input changes nothing; success leaves every table as specified |
| PortPolicyLaws.PolicyOrder | pkg/iptables/manager.go:677-739 | local addresses are accepted, else blocked dropped, else allowed accepted, else the default |
| PortPolicyLaws.LinkedExactlyWhen | pkg/iptables/manager.go:565-675 | a table is linked exactly when there are ports and the policy accepts local addresses, drops by default or lists a source of the family; otherwise no jump for a port is left and the chain goes unless a rule refers to it |
| PortPolicyLaws.SyncedVerdict | pkg/iptables/manager.go:565-675 | a TCP packet to a listed port meets the policy first; any other one meets exactly the rules behind the port jumps, which are old rules, among them all that do not jump to the chain, in order; on safe parents exactly those that were no removable jumps |
| PortPolicyLaws.UnlistedAsBefore | pkg/iptables/manager.go:565-675 | a packet to an unlisted port that no old jump caught is treated as before |
| PortPolicyLaws.OthersKeepOrder | pkg/iptables/manager.go:483-511 | on any chain, parent rules that do not jump to the chain keep their order |
| PortPolicyLaws.OldJumpsGone | pkg/iptables/manager.go:483-511 | on any chain only the new port jumps are left if no old jump has an argument that the listing quotes, and on safe chains only if; whatever the tool quotes |
| PortPolicyLaws.SecondSyncChangesNothing | pkg/iptables/manager.go:565-675 | synchronising a table a second time changes nothing if and only if every linked parent that the first one left is safe |
| PortPolicyLaws.SafeSyncedTwice | pkg/iptables/manager.go:565-675 | on safe parents a second synchronisation changes nothing |
| AuthCache.StateCache.Get | pkg/proxy/auth_cache.go:349-365 | the unexpired entry, or none and an expired one is deleted |
| AuthCache.StateCache.Store | pkg/proxy/auth_cache.go:385-400 | the entry and its index set are written, then the cleanup runs |
| AuthCache.StateCache.DeleteEntryLocked | pkg/proxy/auth_cache.go:465-479 | the key leaves the entries and the set of its identity, and an emptied set leaves the index |
| AuthCache.StateCache.CleanupExpiredLocked | pkg/proxy/auth_cache.go:481-491 | at most every thirty seconds all expired entries go, in any order of visiting |
| AuthCache.StateCache.InvalidateOne | pkg/proxy/auth_cache.go:424-432 | ranging over the index set that the body shrinks deletes all that the index listed under the identity, and nothing else |
| AuthCache.StateCache.InvalidateByIdentityKeys | pkg/proxy/auth_cache.go:419-446 | all that the index lists under the identities is deleted, each key once and in its own index set |
| AuthCache.StateCache.Clear | pkg/proxy/auth_cache.go:448-463 | the empty cache |
| AuthCache.DropTwice | pkg/proxy/auth_cache.go:465-479 | deleting keys one after the other is deleting them together |
| AuthCache.DropIsExact | pkg/proxy/auth_cache.go:465-479 | deletion keeps the index exact in both directions, without empty sets |
| AuthCacheHistory.CleanedExactly | pkg/proxy/auth_cache.go:481-491 | a cleanup thirty seconds or more after the last one leaves exactly the entries that expire later than now, an earlier one does nothing |
| AuthCacheHistory.StoreKeepsExact | pkg/proxy/auth_cache.go:385-400 | a store keeps the index exact if and only if it does not move its key to another identity |
| AuthCacheHistory.RunIsFaithful | pkg/proxy/auth_cache.go:349-491 | over any run with a nondecreasing clock in which keys determine identities the index is exact and the cache is the live history but for expired entries |
| AuthCacheHistory.HitsExactly | pkg/proxy/auth_cache.go:349-365 | when keys determine identities, a lookup hits exactly when the latest store of the key is unexpired and not since deleted, invalidated or cleared |
| AuthCacheHistory.InvalidationIsExact | pkg/proxy/auth_cache.go:419-446 | when keys determine identities, exactly the entries of other identities remain after an invalidation, unchanged |
| AuthCacheHistory.InvalidationNeverMisses | pkg/proxy/auth_cache.go:419-446 | in every run, also when keys move between identities, no entry of an invalidated identity is left and no other entry is altered |
| AuthCacheHistory.ListedExactlyWhen | pkg/proxy/auth_cache.go:349-491 | in every run the index lists a key under an identity exactly when some operation stored it there, and since then the cache was not cleared and the key did not leave it under that identity |
| AuthCacheHistory.InvalidationExactlyWhen | pkg/proxy/auth_cache.go:419-446 | in every run, an invalidation removes an entry of another identity if and only if its key was stored under an invalidated one and has not left the cache under that one since |
| AuthCacheHistory.MovedKeyIsLost | pkg/proxy/auth_cache.go:385-446 | such a run: a key stored under two identities is lost when the first is invalidated |
| CacheKeys.IdentityForCache | pkg/proxy/auth_cache.go:174-185 | the identity is the hash of the accepted cookies, else of the Authorization header, else of the address; an address gives no second field |
| CacheKeys.SourceInjective | pkg/proxy/auth_cache.go:174-185 | the hashed text determines which of the three identifies the client, and its value |
| CacheKeys.LookupKey | pkg/proxy/auth_cache.go:241-279 | for either cache, appending field after field to one buffer hashes the fields joined by line breaks |
| CacheKeys.BuildLookup | pkg/proxy/auth_cache.go:187-239 | key and identity of a request, or none when nothing identifies it |
| CacheKeys.SameKey | pkg/proxy/auth_cache.go:187-298 | unless the hash collides on their texts, two requests have the same key exactly when they come from the same client and agree in address field, access mode, scheme, host, request URI, and verb or match flag |
| CacheKeys.URIExactly | pkg/proxy/auth_cache.go:281-298 | two request URIs are the same exactly when path and query string are, and both or neither have a question mark |
| CacheKeys.ClientTells | pkg/proxy/auth_cache.go:174-185 | requests of the same client have the same accepted cookies, without any the same Authorization header, and without that the same address |
| CacheKeys.SameCookieClient | pkg/proxy/handler.go:3085-3114 | clients known by their cookies are the same exactly when the multisets of accepted pairs are |
| CacheKeys.KeysDetermine | pkg/proxy/auth_cache.go:187-298 | in every run of requests whose stored texts the hash keeps apart, equal keys have equal identities |
| CacheKeys.RequestsHit | pkg/proxy/auth_cache.go:187-400 | in every such run a lookup hits exactly when the latest store under its key is unexpired and not since removed, and the entry was stored by a request with the same text of fields |
| CacheKeys.HitIsOwn | pkg/proxy/auth_cache.go:187-400 | so an answer from the cache was made for the same client, address field, access mode, scheme, host and request URI |
| CacheKeys.RequestsInvalidated | pkg/proxy/auth_cache.go:419-446 | in every such run an invalidation removes all entries of the identities and no others |
| EventStore.EventStore.constructor | pkg/waf/event_store.go:21-34 | an empty store; limits that are not positive become the defaults |
| EventStore.EventStore.AppendOrder | pkg/waf/event_store.go:44-46 | the order grows by one id, in place or in a larger copy |
| EventStore.FilterInPlace | pkg/waf/event_store.go:95-112 | writing what is kept over what was read keeps exactly the fresh ids in order |
| EventStore.EventStore.CleanupLocked | pkg/waf/event_store.go:95-112 | expired events are gone from items and order |
| EventStore.EventStore.Add | pkg/waf/event_store.go:36-56 | cleanup, then update in place or insertion at the end, then eviction of the oldest beyond the limit |
| EventStore.EventStore.Drain | pkg/waf/event_store.go:68-93 | up to the limit from the front, and how many remain |
| EventStore.EventStore.Pending | pkg/waf/event_store.go:58-66 | the number of events left after the cleanup |
| EventStoreHistory.RunIsLedger | pkg/waf/event_store.go:36-112 | in every run the order lists the keys of the items once each and never more than the limit, and the drained events are those of the tickets drained |
| EventStoreHistory.InsertionsAreConserved | pkg/waf/event_store.go:36-112 | events drain in order of first insertion, each insertion is in exactly one place, and insertions = drained + evicted + expired + pending |
| EventStoreHistory.DrainedIsLatest | pkg/waf/event_store.go:36-93 | an event drained after any run is the one last added under its trace id, and has not expired |
| EventStoreHistory.UpdateKeepsPlace | pkg/waf/event_store.go:44-50 | storing an event again keeps its place and refreshes its expiry |
| EventStoreHistory.CleanedExactly | pkg/waf/event_store.go:95-112 | a cleanup keeps exactly the events that have not expired, unchanged |
| EventStoreHistory.DrainCounts | pkg/waf/event_store.go:68-93 | after any run a drain returns as many events as have not expired, at most a positive limit and never more than the maximum, and the others remain |
| EventStoreHistory.AddCounts | pkg/waf/event_store.go:36-56 | after any run, storing an event keeps all others that have not expired while there is room; otherwise exactly as many events stay as the limit allows |
| EventStoreHistory.RunEvictsOldest | pkg/waf/event_store.go:36-56 | in every run an evicted event was older than all that stayed |
| HtmlRewrite.RewriteHTMLAbsolutePaths | pkg/proxy/handler.go:4858-4889 | the prefix is inserted in front of exactly the slashes behind href=", src=" and action=" |
| HtmlRewrite.SiteExactly | pkg/proxy/handler.go:4902-4925 | a link site is a slash at the end of a text that ends in href="/, src="/ or action="/ |
| HtmlRewrite.OneSite | pkg/proxy/handler.go:4902-4925 | a match, also of the base element, holds exactly one link site and none straddles its end |
| HtmlRewrite.Growth | pkg/proxy/handler.go:4858-4889 | the output is longer by one prefix per site |
| HtmlRewrite.BytesAndPrefixes | pkg/proxy/handler.go:4858-4889 | every byte is where the sites before it put it, and a site has its prefix right in front |
| HtmlRewrite.EraseGivesBack | pkg/proxy/handler.go:4858-4889 | erasing the insertions gives back the page |
| CookieIdentity.CanonicalCookieIdentity | pkg/proxy/handler.go:3048-3083 | the joined, sorted accepted pairs; empty beyond the cookie limit |
| CookieIdentity.WithinDefaultLimit | pkg/proxy/handler.go:3197-3215 | the shortcut by length decides as the count does |
| CookieIdentity.AppendPairs | pkg/proxy/handler.go:3126-3138 | the accepted pairs of one header in order |
| CookieIdentity.SortCanonicalCookiePairs | pkg/proxy/handler.go:3147-3156 | the in-place insertion sort yields the sorted list |
| CookieIdentity.SortedIsOrdered | pkg/proxy/handler.go:3147-3163 | the sorted list is ordered and has the same pairs |
| CookieIdentity.LessExactly | pkg/proxy/handler.go:3158-3163 | a name is smaller when it is at the first byte where they differ, or a proper prefix |
| CookieIdentity.SortedByName | pkg/proxy/handler.go:3147-3163 | the sorted pairs ascend by name, and by value among equal names |
| CookieIdentity.OrderedUnique | pkg/proxy/handler.go:3147-3163 | an ordered list is determined by its pairs |
| CookieLaws.JoinInjective | pkg/proxy/handler.go:3072-3082 | the joined text determines the pairs |
| CookieLaws.SameIdentity | pkg/proxy/handler.go:3048-3083 | two requests get the same text exactly when their multisets of accepted pairs are equal |
| CookieLaws.JoinedAreAccepted | pkg/proxy/handler.go:3126-3195 | pairs joined and sent as a header are accepted as the same pairs in the same order, up to the limit |
| CookieLaws.QuotedIsAccepted | pkg/proxy/handler.go:3165-3195 | a value in quotes is accepted without them, also with spaces at its ends |
| CookieLaws.NotAccepted | pkg/proxy/handler.go:3126-3138 | the proxy's own cookie and cookies without a value are left out |
| CookieLaws.PartExactly | pkg/proxy/handler.go:3165-3195 | a trimmed part is read as a cookie if and only if it is a name, white space, and the value behind an equals sign, with or without quotes, or nothing for the empty value; the name must be a token and the value of valid bytes |
| CookieLaws.ValueCodes | pkg/proxy/handler.go:3193-3195 | valid bytes are the cookie octets of section 4.1.1 of RFC 6265, the space and the comma |
| CookieLaws.AppendCookieMap | pkg/proxy/auth_cache.go:541-560 | a later cookie overwrites, an empty one deletes |
| CookieLaws.RequestCookieMap | pkg/proxy/auth_cache.go:521-539 | the map of all headers; empty beyond the cookie limit |
| CookieLaws.CanonicalCookieIdentityFromMap | pkg/proxy/auth_cache.go:562-591 | the joined, sorted usable items of the map |
| CookieLaws.FormsAgree | pkg/proxy/auth_cache.go:521-591 | the map form equals the canonical form if and only if no cookie with a value is followed by one of its name |
| WafFilter.ParseRuleIDDigits | pkg/waf/loader.go:472-489 | the number exactly when the bytes are digits and it fits an int |
| WafFilter.ParseSecRuleUpdateTargetByID | pkg/waf/loader.go:448-470 | the loop computes the scan that DirectiveIs is about |
| WafFilter.DirectiveIs | pkg/waf/loader.go:448-470 | digits are found exactly when the directive, white space, digits and no word byte are there |
| WafLaws.DirectiveMeans | pkg/waf/loader.go:448-470 | the directive, byte by byte: its name in any case of ASCII letters, white space without the vertical tab, digits, and no letter, digit or underscore behind them |
| WafFilter.MissingUpdateTargetRuleID | pkg/waf/loader.go:395-410 | the digits exactly when an active directive names an int id that is not defined |
| WafFilter.FilterMissingUpdateTargetDirectives | pkg/waf/loader.go:358-393 | each line is filtered on its own, and the file is reported changed exactly when some line is replaced |
| WafLaws.FilteredLines | pkg/waf/loader.go:358-393 | the output's lines are the filtered input lines, and the others are identical |
| WafLaws.ReplacedExactlyWhen | pkg/waf/loader.go:358-410 | a line is replaced, by the comment with its digits, if and only if it starts with no # and is a directive for an int that is no enabled rule's id; every other line is kept byte for byte; some line is replaced exactly when the file is reported changed |
| WafLaws.MissingExactlyWhen | pkg/waf/loader.go:395-410 | digits are reported exactly for an active directive with those digits, whose number fits an int and is not defined |
| WafLaws.RemainingAreDefined | pkg/waf/loader.go:358-410 | every directive left that names an int id names a defined one |
| WafLaws.FilterTwice | pkg/waf/loader.go:358-393 | filtering is idempotent |
| WafLaws.CollectRuleIDActionIDs | pkg/waf/loader.go:412-446 | collects exactly the ids of all word-bounded occurrences of id, colon and digits that fit an int |
| WafLaws.NoneInside | pkg/waf/loader.go:443-444 | jumping behind an occurrence skips no other one |
| RouteMatch.BuildRequestSnapshot | pkg/proxy/handler.go:236-254 | the path map holds the first rule of every non-empty path, and the list is stably sorted by falling length |
| RouteMatch.FirstIsBest | pkg/proxy/handler.go:4279-4287 | the first prefix in the sorted list is the first configured rule among the longest |
| RouteMatch.LongestPathRuleMatch | pkg/proxy/handler.go:4266-4287 | both branches return the first configured rule among those with the longest non-empty matching path, or none |
| RouteMatch.AnswerUnique | pkg/proxy/handler.go:4266-4287 | so both branches give the same answer |
| RouteMatch.CheckDuplicates | pkg/proxy/handler.go:1863-1884 | accepts exactly the lists in which no two locations share match kind and path |
| RouteMatch.MatchHostLocation | pkg/proxy/handler.go:4163-4190 | an exact location first, else a longest prefix at a segment boundary, the first among equals |
| RouteMatch.MatchedAtBoundary | pkg/proxy/handler.go:4163-4203 | the answer is the request path itself or a prefix of it that ends in a slash or is followed by one; an exact location wins when there is one, and otherwise no matching prefix is longer |
| RouteMatch.OrderIndependent | pkg/proxy/handler.go:1863-1884 | on lists without duplicates the answer does not depend on the order of locations |

## Left out

- JSON decoding, text search and entry checks of the log filter: any functions, passed in as a filter.
- Read errors, and the line scanner's limit of 8 MiB per line: every line is read.
- Log files that shrink or are rewritten between calls: cursors are followed on files that only grow.
- Trimming of non-ASCII white space, and non-ASCII case folding: only the ASCII part is modelled.
- The inner storage of the ring buffer's cells: a cell holds a line as a value, so its byte-slice reuse is not captured.
- PageQuery.QueryRawTail: pages whose product with the limit overflows an int never reach it in the code, so it asks for a product in range; TwoPassIsPageExactlyWhen covers the others.
- JsonField.FindsTopLevelMember: asks for a name written without escapes, as every caller passes it; a member whose name is written with escapes is not found.
- Floating-point rounding in the throttle: tokens and times are real numbers; duration overflow of the TTL is not modelled.
- The FNV shard hash: any function will do. Client addresses arrive normalised.
- Scheduling, listening and dialling: the operating system refuses ports as it likes; relaying bytes, authentication of streams, metrics and log entries are not modelled.
- Normalisation of stream rules: Reconcile takes rules that passed it.
- Parent-chain links made by Init, listing of rules, redirects and custom exempt rules of the firewall manager.
- Kernel commands that fail for other reasons than the ones modelled: an insertion beyond the end, a missing rule, an unavailable match, a chain linked into itself.
- PortPolicy.SyncTable: the partly linked table that a failed synchronisation leaves is not stated; defaults for the chain name and the parent list are applied beforehand.
- Address texts: an address is resolved to family and prefix beforehand, so duplicates by spelling are not merged.
- FirewallHistory.LatestDecisionWins: asks for sources other than built-in local prefixes and the all-addresses prefix, for which it is false; FirewallRuns.ChainFormula and NewestDecision say what every run leaves.
- Interleaving inside the methods of the listener classes: each runs its section alone; the steps of different goroutines interleave in the transition systems.
- PortPolicyLaws.SyncedVerdict: what other rules match and decide is a parameter; the kernel is taken to match a port jump on the destination port.
- Singleflight around authentication checks: cache operations are atomic steps; a deletion that races with a store is a step of its own.
- SHA-256 itself: any function to sixty-four hexadecimal digits. No such function is injective, so results ask that it keeps apart the texts that a run stores and looks up.
- Normalisation of access mode, scheme, method and host in front of a cache key, and escaping of its URL path.
- AuthCacheHistory.HitsExactly: asks for keys that determine identities, as CacheKeys.KeysDetermine shows for the program's own; InvalidationExactlyWhen is about any keys.
- Rules with a line break in an argument, and a parent or chain name that the listing quotes.
- The preflight cache: the same code as the authentication cache, with another payload.
- Mutexes of the event store and the caches: their methods are atomic.
- strings and sort library calls: sorting a list of names and the stable sort of rules are insertion sorts with the same result.
- Host-rule lookup, the default route, slash redirects and the proxy-path cookie around route matching.
- Toolbar injection, templates, TLS, websocket relays, admin handlers and configuration defaults.
