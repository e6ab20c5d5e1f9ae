# Algorithms and protocols of the NGINX stream Trojan module, verified

The module turns an NGINX stream server into a Trojan endpoint. Around the
NGINX plumbing sit a host matcher, two first-match rule selectors, a
multiplexer, a WebSocket transport, a DNS-over-HTTPS client and a UDP framing.
This project models those parts in Dafny and proves what they promise. Run
`dafny verify dfyconfig.toml` to check all of it.

Code that works on buffers, tables and counters is modelled as classes and
in-place loops, each tied to a specification over values; the promises are
lemmas about that specification and invariants every method keeps. What a
specification reads off the wire is held against what a peer writes: clients,
servers and their formats are written down apart from the parsers, and reading
gives back what was sent. The outside is a method with an arbitrary result:
`recv` and `send` take or give any number of octets or fail, and write what
they took or gave to a ghost log that the code under proof does not write. Hash
functions, cache set choices and random draws are arbitrary functions or
parameters. Every statement is about all inputs and all runs.

| part | modules |
|---|---|
| octets, words, names, labels, numbers | Bytes, Ascii, Names, Labels, Numbers |
| geosite matcher | AhoCorasick, ProbeIndex, SetCache, Geosite, GeositeMeaning |
| rule selection | RuleScan, DnsRules, Routes, RuleMeaning |
| smux | MuxTable, MuxFrames, MuxStream, MuxReceive, MuxRequest, MuxWindow |
| WebSocket | WsCodec, WsStream, WsClient, WsInbound, WsOutbound |
| DNS over HTTPS | DohStream, DohSender, DohResponse, DohReader, DohScheduler, DnsQuery, DnsAnswer, DnsResponse, DnsRefusal |
| UDP framing | TrojanUdp |

## Main results

- **Geosite.** `AhoCorasick.Search` finds the least order of a passing keyword
  in the host, with failure and output links proved right and pruning proved
  harmless. `Geosite.Entry.Match`, with cache, two indexes, automaton or
  buckets and the early exit among regexes, answers as the linear scan over all
  rules, after any earlier lookups. What that scan means is said rule by rule:
  which ones an attribute filter leaves (`GeositeMeaning.FilterKeeps`) and what
  each kind asks (`KindsMean`).
- **Rule selection.** `DnsRules.Rules.Match` and
  `Routes.Session.SelectOutbound` are naive first match on every path, with
  caches and memo in any state they can reach. The caches behind them hold
  exactly the four most recently used keys of each set. Where a route matches,
  `RuleMeaning.ConnectRefused` and `AssociateRefused` say for every block mode
  which requests get no outbound.
- **smux receiving.** `MuxReceive.Session.PayloadInOrder`: for an open stream,
  octets taken by the upstream socket, then buffered, deferred and unfed ones,
  are exactly the payload of its frames in what the client connection
  delivered. A client that writes a stream's request header and then a payload,
  in any frames between those of other streams, has that payload as the line of
  the stream and no octet of the header (`MuxRequest.ClientIsServed`).
  `NoTokenLost` balances the token bucket in every state. `FlushToUpstream`
  shuts the write side down after FIN exactly when buffer and queue are empty
  and there is a buffer. On version 2 every stream's counter stands for its
  request header and what its upstream socket took
  (`ConsumedIsRequestAndSent`). Two kinds of branches are dead, and proved so
  where they stand: in `RecvDirect` a frame never runs out of room, in
  `RecvDeferred` never out of tokens.
- **smux windows.** Behind 32-bit counters that wrap, no frame passes the limit
  of a peer that keeps its word, and the negative in-flight error is dead. What
  the connection takes of UPD frames is whole frames, octet by octet, and the
  start of one; they parse back as reports that rise and never pass what was
  consumed.
- **smux table.** With tombstones and conditional rebuild the table refines a
  map; at least 33 of its cells are empty in every state.
- **WebSocket.** Inbound, the octets delivered are the unmasked payloads in
  order for every split. What a client sends as messages, cut into masked
  BINARY and CONT frames with PING and PONG between, is what its reader
  delivers (`WsClient.MessagesAreRead`, `ClientIsHeard`). Masking by words
  equals masking by octets at every alignment. Outbound, what the connection
  took is read back as exactly the payload reported as sent.
- **DNS over HTTPS.** However a response is split, the decoded body is the same
  or every reading fails, at the buffer limit too. A response in chunks, with a
  length, or up to the end of the connection is read as the body that was sent,
  in any spelling of its fields and sizes (`DohResponse.ChunkedIsRead`,
  `LengthIsRead`, `RestIsRead`). Over every sequence of events, with callbacks
  that start and cancel lookups, the scheduler keeps its counts and every
  lookup ends once. Queries, names and answers make round trips in both
  directions.
- **UDP.** Parsing undoes packing with anything behind it. Every frame leaves
  the sliding buffer once, in order, and none of up to 16384 octets is refused
  for room. Which of them go out or to a resolver is said below.

## Where the code does less than one might expect

Each of these is proved with its exact condition and shown at an input.

- A CLOSE queued while part of a PONG is on the wire overwrites the rest of it,
  and the client reads the CLOSE as the PONG's payload
  (`WsOutbound.CloseInsidePong`). `WsOutbound.Outbound.Enqueue`: the framing is
  kept if and only if that is not the case.
- The response parser makes room for one address per 16 octets, plus one. A
  well-formed record whose owner is the bare root takes 15, so a response with
  enough of them is refused: alone and without a question from the twenty-ninth
  on (`DnsResponse.RootAnswersRefused`). With owners of two octets or more, a
  compression pointer for one, none is ever refused (`DnsResponse.RoomyFits`).
- A negative answer is matched to the question by joining labels with dots, so
  a label with a dot in it passes for two (`DnsRefusal.DottedLabelFits`).
  `DnsRefusal.FitsIsSameLabels`: labels that fit are the name's own if and only
  if none has a dot in it.
- The class of a record is not looked at, so an A record of class 3 is answered
  as an address (`DnsResponse.OtherClassAnswered`).
  `DnsAnswer.InAddressesExact`: the addresses are those of the Internet class
  if and only if every address record is of that class.
- A stream whose client sends FIN before any payload has no client buffer, and
  its upstream write side is not shut down by the flush
  (`MuxReceive.Session.FinWithoutPayload`). `FlushToUpstream` says when it is.
- A UDP frame can leave the buffer and be lost: a name is taken out before the
  resolver is asked, and a socket that would block counts as success
  (`TrojanUdp.FrameLost`). `TrojanUdp.Input.Process`: the frames that went out
  or to a resolver are all that left the buffer if and only if none met a
  socket that would block, a session with a lookup under way, an engine with 32
  lookups active and 256 waiting, which is when
  `DohScheduler.Scheduler.Resolve` is busy, or a lookup that could not start.

## Model

| member | source | states |
|---|---|---|
| `AhoCorasick.LongestStep` | ngx_stream_trojan_geosite.c:934-955 | reading one octet needs only the longest trie word the text ends with: the automaton may forget the text |
| `AhoCorasick.FailTurn` | ngx_stream_trojan_geosite.c:934-955 | going one failure link down preserves the longest match still to be found |
| `AhoCorasick.OutputTurn` | ngx_stream_trojan_geosite.c:1001-1051 | the recurrence for output links computes the longest proper suffix that carries keywords |
| `AhoCorasick.SuffixSplit` | ngx_stream_trojan_geosite.c:1054-1086 | a word ends a text when it is the text or ends its longest kept proper suffix, so no suffix is skipped by following links |
| `AhoCorasick.ChainStep` | ngx_stream_trojan_geosite.c:1054-1086 | the keywords ending at a node are its own and those of its output node: walking output links misses none |
| `AhoCorasick.EndHitsOfState` | ngx_stream_trojan_geosite.c:1089-1146 | every keyword ending in the text read so far ends in the state kept for it |
| `AhoCorasick.HitsStep` | ngx_stream_trojan_geosite.c:1089-1146 | the keywords occurring in a text are those in its prefix and those ending with its last octet |
| `AhoCorasick.LoweredIsMinimum` | ngx_stream_trojan_geosite.c:1054-1086 | the result is the minimum of the old order and the orders found, and unique |
| `AhoCorasick.ReachedByDepth` | ngx_stream_trojan_geosite.c:1001-1051 | every node is queued by the breadth-first pass |
| `AhoCorasick.QueueChild` | ngx_stream_trojan_geosite.c:1001-1051 | linking and queueing one child keeps the pass going, each node queued once and within the array |
| `AhoCorasick.FindEdge` | ngx_stream_trojan_geosite.c:916-931 | the edge list is searched to exactly the child the trie has |
| `AhoCorasick.PlainNext` | ngx_stream_trojan_geosite.c:934-955 | the next state is the longest trie word the extended text ends with; the failure loop ends by depth |
| `AhoCorasick.ConsiderNode` | ngx_stream_trojan_geosite.c:1054-1086 | pruning by the minimum order of a node loses no keyword that would lower the result |
| `AhoCorasick.ConsiderMatch` | ngx_stream_trojan_geosite.c:1054-1086 | the walk along output links lowers the order to the minimum over all passing keywords ending at the state |
| `AhoCorasick.Search` | ngx_stream_trojan_geosite.c:1089-1146 | the search lowers the order to exactly the minimum of its old value and the smallest order of a passing keyword occurring in the host |
| `AhoCorasick.KeywordAutomaton.constructor` | ngx_stream_trojan_geosite.c:904-913 | a root alone, no keyword |
| `AhoCorasick.KeywordAutomaton.Insert` | ngx_stream_trojan_geosite.c:958-998 | one keyword is added under its order, all others kept, the trie grown by at most its length |
| `AhoCorasick.KeywordAutomaton.BuildFail` | ngx_stream_trojan_geosite.c:1001-1051 | afterwards every failure link is the longest proper suffix in the trie and every output link the nearest suffix with keywords |
| `AhoCorasick.KeywordAutomaton.OpenNode` | ngx_stream_trojan_geosite.c:1001-1051 | one turn of the breadth-first loop: a node's children linked and queued |
| `ProbeIndex.WrapIsModulo` | ngx_stream_trojan_geosite.c:363-393 | stepping and wrapping to zero visits the home slot plus i modulo the table size |
| `ProbeIndex.NoFreeSlot` | ngx_stream_trojan_geosite.c:396-435 | a probe that meets no free slot has seen a full table |
| `ProbeIndex.AbsentAtFree` | ngx_stream_trojan_geosite.c:363-393 | a key not met before the first free slot is absent |
| `ProbeIndex.FillSlot` | ngx_stream_trojan_geosite.c:396-435 | filling the first free slot adds the key and keeps every other reachable |
| `ProbeIndex.ChangeChain` | ngx_stream_trojan_geosite.c:396-435 | extending a chain changes that key only |
| `ProbeIndex.IndexSlots` | ngx_stream_trojan_geosite.c:349-360 | enough slots for the keys by the load factor, and less than twice as many as that needs |
| `ProbeIndex.Find` | ngx_stream_trojan_geosite.c:363-393 | exactly the chain the table holds for the key, for any hash function |
| `ProbeIndex.Index.Insert` | ngx_stream_trojan_geosite.c:396-435 | refines a map from keys to chains; refused exactly when the key is new and the table full |
| `SetCache.CapCommutes` | ngx_stream_trojan_dns_rules.c:240-292 | keeping four entries at every step loses nothing: a set holds exactly the four most recently used keys of its whole history |
| `SetCache.RecentsByLastUse` | ngx_stream_trojan_dns_rules.c:201-292 | the list is ordered by last use, each key with its latest value |
| `SetCache.RecentsComplete` | ngx_stream_trojan_dns_rules.c:201-292 | no key ever used is missing from the uncapped list |
| `SetCache.RecentsDistinct` | ngx_stream_trojan_dns_rules.c:201-292 | the keys of a set are distinct |
| `SetCache.RecentsFrom` | ngx_stream_trojan_dns_rules.c:201-292 | every entry was put there by a use |
| `SetCache.HitHolds` | ngx_stream_trojan_dns_rules.c:201-237 | a hit restamps one way and moves its key to the front |
| `SetCache.FillHolds` | ngx_stream_trojan_dns_rules.c:240-292 | a store into an unused way keeps the used ways a prefix |
| `SetCache.EvictHolds` | ngx_stream_trojan_dns_rules.c:240-292 | a store into the oldest way drops exactly the least recently used key |
| `SetCache.CurrentWasUsed` | ngx_stream_trojan_dns_rules.c:201-237 | what a lookup may answer was stored for the same key |
| `SetCache.Cache.Lookup` | ngx_stream_trojan_geosite.c:241-275 | a hit returns the value current for the key and makes it most recent; a miss changes nothing |
| `SetCache.Cache.VictimWay` | ngx_stream_trojan_module.c:5538-5587 | the way to overwrite is the key's own, else the first unused, else the oldest |
| `SetCache.Cache.Store` | ngx_stream_trojan_geosite.c:278-330 | the use is added to the history of the key's set, and every set goes on holding its four most recent keys |
| `Names.MatchDomainFolded` | ngx_stream_trojan_geosite.c:1737-1758 | folding the host changes no domain rule's answer |
| `Names.SuffixAt` | ngx_stream_trojan_geosite.c:1486-1539 | between two label starts the suffix looked up is the only value a domain rule can match |
| `Names.NextLabel` | ngx_stream_trojan_dns_rules.c:454-511 | the loop stops at the next label start and skips none |
| `Geosite.HitFolded` | ngx_stream_trojan_geosite.c:1542-1703 | folding a host that fits the key buffer changes no rule's answer |
| `Geosite.MatchesFolded` | ngx_stream_trojan_geosite.c:1542-1703 | so the folded name may stand for the host in the cache |
| `Geosite.PlainIsOccurs` | ngx_stream_trojan_geosite.c:1761-1786 | on a folded key the naive keyword test is containment |
| `Geosite.ScanPlain` | ngx_stream_trojan_geosite.c:1761-1786 | the nested scan decides containment, letter case aside |
| `Geosite.SuffixTurn` | ngx_stream_trojan_geosite.c:1486-1539 | one turn of the suffix loop adds exactly the rules of the suffix looked up |
| `Geosite.AllDomainHits` | ngx_stream_trojan_geosite.c:1486-1539 | after the last label all matching domain rules have been considered |
| `Geosite.AutomatonHits` | ngx_stream_trojan_geosite.c:1089-1146 | the automaton's keywords are exactly the passing keyword rules of the entry |
| `Geosite.PlainFirstOctet` | ngx_stream_trojan_geosite.c:1486-1539 | a keyword that occurs starts with an octet of the host, so its bucket is opened |
| `Geosite.ConsiderChain` | ngx_stream_trojan_geosite.c:1467-1483 | a chain lowers the order to the smallest order of its passing rules |
| `Geosite.CountRules` | ngx_stream_trojan_geosite.c:1148-1310 | the sizing pass counts the rules of each kind and the keyword octets up to the limit |
| `Geosite.BuildIndexes` | ngx_stream_trojan_geosite.c:1148-1310 | both indexes, the automaton or the buckets, and the regex list hold exactly the rules of their kind |
| `Geosite.FullHits` | ngx_stream_trojan_geosite.c:1486-1539 | looking up the whole key finds exactly the matching full rules |
| `Geosite.DomainTurn` | ngx_stream_trojan_geosite.c:1486-1539 | looking up a suffix finds exactly the domain rules it adds |
| `Geosite.Entry.constructor` | ngx_stream_trojan_geosite.c:1399-1466 | a prepared entry with an empty cache |
| `Geosite.Entry.ConsiderSuffixes` | ngx_stream_trojan_geosite.c:1486-1539 | the order is lowered by exactly the matching domain rules |
| `Geosite.Entry.SearchKeywords` | ngx_stream_trojan_geosite.c:1486-1539 | the order is lowered by exactly the matching keyword rules, on either path |
| `Geosite.Entry.SearchBuckets` | ngx_stream_trojan_geosite.c:1486-1539 | opening each octet's bucket once considers every matching keyword |
| `Geosite.Entry.MatchIndexed` | ngx_stream_trojan_geosite.c:1486-1539 | the smallest order among all indexed rules that match |
| `Geosite.Entry.IndexedMatch` | ngx_stream_trojan_geosite.c:1542-1703 | an order was found exactly when a rule other than a regex matches |
| `Geosite.Entry.MatchKey` | ngx_stream_trojan_geosite.c:1542-1703 | with the early exit of the regex loop, the answer of the linear scan |
| `Geosite.Entry.LinearScan` | ngx_stream_trojan_geosite.c:1737-1786 | the plain scan over all rules decides whether any matches |
| `Geosite.Entry.Match` | ngx_stream_trojan_geosite.c:1542-1703 | the answer of the linear scan, for every host and attribute filter and after any earlier lookups |
| `GeositeMeaning.FilterKeeps` | ngx_stream_trojan_geosite.c:1706-1734 | an entry under an attribute filter matches exactly when one of its rules alone does that carries the attribute, or under a negated filter does not carry it |
| `GeositeMeaning.NobodyCarries` | ngx_stream_trojan_geosite.c:1706-1734 | an attribute no rule carries leaves nothing of an entry, and negated all of it |
| `GeositeMeaning.EverybodyCarries` | ngx_stream_trojan_geosite.c:1706-1734 | an attribute every rule carries leaves all of an entry, and negated nothing |
| `GeositeMeaning.FiltersShare` | ngx_stream_trojan_geosite.c:1706-1734 | without a filter an entry matches exactly when it does under the filter or under its negation |
| `GeositeMeaning.KindsMean` | ngx_stream_trojan_geosite.c:1542-1703 | letter case aside, a keyword rule asks to be contained, a domain rule to be the name or to end it after a dot, a full rule to be the name; a regex is asked about the folded name up to 256 octets and the name itself above |
| `GeositeMeaning.PlainMeans` | ngx_stream_trojan_geosite.c:1761-1786 | the keyword test is containment in the folded name |
| `GeositeMeaning.DomainMeans` | ngx_stream_trojan_geosite.c:1737-1758 | the domain test is the name itself or a dot and the domain at its end |
| `RuleScan.FirstAgrees` | ngx_stream_trojan_dns_rules.c:1351-1426 | the first matching group depends only on what the rules answer |
| `RuleScan.CountDomains` | ngx_stream_trojan_dns_rules.c:345-418 | the sizing pass counts the domain rules |
| `RuleScan.BuildIndex` | ngx_stream_trojan_dns_rules.c:345-418 | every domain value is indexed under the first group that has it, and each group's other rules are listed |
| `RuleScan.AddDomain` | ngx_stream_trojan_dns_rules.c:309-342 | an insertion keeps the first group a value was seen in |
| `RuleScan.NewSuffix` | ngx_stream_trojan_dns_rules.c:454-511 | a suffix that newly matches is the one looked up, under its first group |
| `RuleScan.SuffixTurn` | ngx_stream_trojan_dns_rules.c:454-511 | one turn keeps the smallest group matched so far |
| `RuleScan.IndexMatch` | ngx_stream_trojan_dns_rules.c:454-511 | the smallest group with a matching domain rule |
| `RuleScan.MatchGroup` | ngx_stream_trojan_dns_rules.c:1429-1468 | whether the group, or with domain rules skipped its other rules, match |
| `RuleScan.HitByParts` | ngx_stream_trojan_dns_rules.c:1429-1468 | a group matches by its other rules or by a suffix of the name |
| `RuleScan.PureGroup` | ngx_stream_trojan_dns_rules.c:1351-1426 | a group without domain rules is decided by its list of other rules |
| `RuleScan.LeadingScan` | ngx_stream_trojan_dns_rules.c:1351-1426 | the leading groups without domain rules are decided first, in order |
| `RuleScan.Scan` | ngx_stream_trojan_dns_rules.c:1351-1426 | the first matching group of a range, domain rules skipped only when the index has spoken for them |
| `RuleScan.BoundedByIndex` | ngx_stream_trojan_dns_rules.c:1351-1426 | below the index hit only other rules can match, and the hit itself matches |
| `RuleScan.Select` | ngx_stream_trojan_dns_rules.c:1351-1426 | leading scan, index candidate and bounded rescan equal naive first match |
| `DnsRules.FoldedSame` | ngx_stream_trojan_dns_rules.c:1351-1426 | the folded name has the same first group as the host, for regexes that ignore case |
| `DnsRules.Rules.Choose` | ngx_stream_trojan_dns_rules.c:1351-1426 | the uncached selection is naive first match |
| `DnsRules.Rules.Match` | ngx_stream_trojan_dns_rules.c:1351-1426 | the lowest-index matching group for the host without one trailing dot, after any earlier lookups |
| `Routes.HighBits` | ngx_stream_trojan_module.c:6332-6358 | equal quotients mean equal high bits |
| `Routes.OctetBits` | ngx_stream_trojan_module.c:6332-6358 | the masked comparison of one octet compares exactly its first bits |
| `Routes.CidrIsPrefix` | ngx_stream_trojan_module.c:6332-6358 | an address matches exactly when its first prefix bits are the network's |
| `Routes.SameIsFolded` | ngx_stream_trojan_module.c:5381-5406 | targets the cache takes for one are equal once folded |
| `Routes.FoldedSame` | ngx_stream_trojan_module.c:6237-6275 | letter case of a domain target never changes its route |
| `Routes.PickOutbound` | ngx_stream_trojan_module.c:5326-5378 | none exactly when all are blocked; the current one if it may stay; else the one the draw names among the usable |
| `Routes.Config.Choose` | ngx_stream_trojan_module.c:6041-6171 | the uncached selection is naive first match over the routes |
| `Routes.Config.FindRoute` | ngx_stream_trojan_module.c:6041-6171 | the same through the shared cache, after any earlier lookups |
| `Routes.Session.SelectOutbound` | ngx_stream_trojan_module.c:6041-6171 | in any history and for any draw an unblocked outbound of the first matching route, or none exactly when no route matches or all its outbounds are blocked |
| `RuleMeaning.ConnectRefused` | ngx_stream_trojan_module.c:6422-6456 | where a route matches, a connection gets no outbound exactly when all of them block everything, else one that does not |
| `RuleMeaning.AssociateRefused` | ngx_stream_trojan_module.c:6422-6456 | datagrams get none exactly when every outbound blocks everything or UDP, and on port 443 when none is open; else one that lets them out |
| `RuleMeaning.RefusedToBoth` | ngx_stream_trojan_module.c:6422-6456 | a target refused to connections is refused to datagrams |
| `RuleMeaning.FirstTakes` | ngx_stream_trojan_module.c:6237-6275 | the route found is the first one of whose rules takes the target by itself |
| `RuleMeaning.RulesMean` | ngx_stream_trojan_module.c:6361-6409 | a port rule takes the ports from its first to its last; an address rule the addresses whose first bits are the network's, and no name; a geosite rule names only |
| `RuleMeaning.DomainRuleMeans` | ngx_stream_trojan_module.c:6304-6329 | a domain rule takes exactly the domain and the names under it in any letter case, with one trailing dot or without |
| `RuleMeaning.DomainRuleLimits` | ngx_stream_trojan_module.c:6361-6409 | a domain rule takes no address, and a name that is one dot keeps it |
| `RuleMeaning.DnsRulesMean` | ngx_stream_trojan_dns_rules.c:1351-1426 | a DNS rule is asked about the name without its one trailing dot |
| `RuleMeaning.DotStays` | ngx_stream_trojan_dns_rules.c:1351-1426 | a name that is one dot keeps it |
| `MuxTable.CountUpdate` | ngx_stream_trojan_module.c:8386-8461 | changing one cell changes the counts by that cell |
| `MuxTable.NotThere` | ngx_stream_trojan_module.c:8464-8491 | an id not met before an empty cell is not in the table |
| `MuxTable.Placed` | ngx_stream_trojan_module.c:8386-8432 | a stream put on its probe path past live cells is found, and so are all others |
| `MuxTable.Buried` | ngx_stream_trojan_module.c:8435-8461 | a tombstone hides one stream and breaks no probe |
| `MuxTable.StreamTable.AlwaysRoom` | ngx_stream_trojan_module.c:8511-8531 | at least 33 cells are empty in every state, so every probe stops |
| `MuxTable.StreamTable.Insert` | ngx_stream_trojan_module.c:8386-8432 | fails only for a known id or a table full of live streams; a reused tombstone is counted off |
| `MuxTable.StreamTable.Find` | ngx_stream_trojan_module.c:8464-8491 | refines lookup in the map from ids to live streams |
| `MuxTable.StreamTable.Create` | ngx_stream_trojan_module.c:8535-8576 | succeeds exactly below 64 streams on a fresh id, and adds that stream |
| `MuxTable.StreamTable.Bury` | ngx_stream_trojan_module.c:8435-8461 | removes exactly that stream, counting its tombstone |
| `MuxTable.StreamTable.Rebuild` | ngx_stream_trojan_module.c:8492-8508 | the same streams without a tombstone |
| `MuxTable.StreamTable.Cleanup` | ngx_stream_trojan_module.c:10243-10248 | removal, count and conditional rebuild keep map, order and tombstone count |
| `MuxFrames.HeaderIsParsed` | ngx_stream_trojan_mux.c:104-147 | a packed frame header parses back |
| `MuxFrames.HeaderWasPacked` | ngx_stream_trojan_mux.c:54-101 | a header that parses is the packed form of what it says |
| `MuxFrames.PackHeader` | ngx_stream_trojan_mux.c:104-147 | written exactly for frames the parser takes, with room, else nothing is |
| `MuxFrames.UpdateIsParsed` | ngx_stream_trojan_mux.c:149-178 | a packed window report parses back |
| `MuxFrames.PackUpdate` | ngx_stream_trojan_mux.c:166-178 | both words of a report are written, and nothing else |
| `MuxFrames.WholeThen` | ngx_stream_trojan_module.c:7615-7740 | the octets of a stream in a log are those in its whole frames, then those in the rest |
| `MuxFrames.CurrentFrame` | ngx_stream_trojan_module.c:7615-7740 | a frame being read brings its payload so far to the stream it names and to no other |
| `MuxFrames.BodyArrives` | ngx_stream_trojan_module.c:6999-7077 | payload octets received extend the line of that stream only |
| `MuxFrames.FrameDone` | ngx_stream_trojan_module.c:7615-7740 | finishing a frame changes nobody's line |
| `MuxFrames.LineIsPayload` | ngx_stream_trojan_module.c:7615-7740 | what a stream was brought is the payload of its frames in everything received since its SYN |
| `MuxStream.HeaderIsPrefix` | ngx_stream_trojan_mux.c:181-233 | a complete request header is decided by its own octets |
| `MuxStream.StillNeeded` | ngx_stream_trojan_mux.c:181-233 | an incomplete header stays incomplete until the octets asked for are there |
| `MuxStream.NeededNeverOvershoots` | ngx_stream_trojan_mux.c:181-233 | no octet past the header is ever asked for |
| `MuxStream.RestExtend` | ngx_stream_trojan_module.c:8854-8903 | octets added to the last deferred frame go to the end of the line |
| `MuxStream.Stream.EnsureBuffer` | ngx_stream_trojan_module.c:8636-8706 | room for the frame exactly when it fits the bound, nothing unread lost |
| `MuxStream.Stream.Compact` | ngx_stream_trojan_module.c:6964-6982 | unread octets move to the front, all other room is free |
| `MuxStream.Stream.MoveHead` | ngx_stream_trojan_module.c:8987-9049 | octets move from the first frame to the end of the buffer, order kept |
| `MuxStream.Stream.Drain` | ngx_stream_trojan_module.c:8987-9049 | frames move into the buffer in order; it says truly whether anything moved |
| `MuxStream.Stream.Advance` | ngx_stream_trojan_module.c:9935-10008 | what the socket took leaves the buffer at the front |
| `MuxStream.Stream.TakeDirect` | ngx_stream_trojan_module.c:6999-7077 | received octets written straight into the buffer keep the line |
| `MuxStream.Stream.TakeDeferred` | ngx_stream_trojan_module.c:8906-8984 | received octets put behind the deferred frames keep the line |
| `MuxReceive.SumWithout` | ngx_stream_trojan_module.c:9052-9217 | what all streams hold is what one holds and the rest |
| `MuxReceive.Session.CanAccept` | ngx_stream_trojan_module.c:8731-8768 | an accepted frame has tokens and room for all of it |
| `MuxReceive.Session.QueuePending` | ngx_stream_trojan_module.c:8854-8903 | queued whole against tokens, or refused for want of them |
| `MuxReceive.Session.AppendData` | ngx_stream_trojan_module.c:9300-9330 | appended whole in order, or not at all with the reason |
| `MuxReceive.Session.SendBuffer` | ngx_stream_trojan_module.c:9935-10008 | octets go out in order and their tokens come back, however much each send takes |
| `MuxReceive.Session.SendSome` | ngx_stream_trojan_module.c:9954-9992 | one send: octets leave the front, their tokens come back, and on version 2 they are counted |
| `MuxReceive.Session.FinWithoutPayload` | ngx_stream_trojan_module.c:9945-9950 | a client that sends a request and FIN and no payload: all is sent, and the write side stays open |
| `MuxReceive.Session.FlushToUpstream` | ngx_stream_trojan_module.c:9935-10008 | the write side is shut down after FIN exactly when buffer and queue are empty and a buffer exists |
| `MuxReceive.Session.ProcessStream` | ngx_stream_trojan_module.c:10056-10139 | flush and drain until neither moves; the line and the token sum are kept |
| `MuxReceive.Session.TakeRequest` | ngx_stream_trojan_module.c:9333-9422 | exactly the header's octets are taken off the frame |
| `MuxReceive.Session.FeedStream` | ngx_stream_trojan_module.c:9333-9422 | after it the frame is in the line, or untouched for want of tokens |
| `MuxReceive.Session.Bounded` | ngx_stream_trojan_module.c:8636-8706 | in every state a client buffer is at most 65536 octets and no more is lent than there is |
| `MuxReceive.Session.NoTokenLost` | ngx_stream_trojan_module.c:9052-9217 | in every state free tokens and buffered octets make 4194304: no saturating branch loses or invents one |
| `MuxReceive.Session.ConsumedIsRequestAndSent` | ngx_stream_trojan_module.c:9115-9154 | in every state a version 2 stream has counted its request header and what the upstream socket took, on a counter that wraps |
| `MuxReceive.Session.PayloadInOrder` | ngx_stream_trojan_module.c:6999-7077 | in every state sent, buffered, deferred and unfed octets are the payload of the stream's frames after its request header, in order, as recv brought them since its SYN |
| `MuxReceive.Session.Process` | ngx_stream_trojan_module.c:10056-10139 | an upstream event keeps every stream's line; shutdown only with everything sent |
| `MuxReceive.Session.Connected` | ngx_stream_trojan_module.c:9883-9932 | so does the event of a connection coming up |
| `MuxReceive.Session.Fail` | ngx_stream_trojan_module.c:10142-10172 | a failed stream closes and the books still balance |
| `MuxReceive.Session.Cleanup` | ngx_stream_trojan_module.c:10175-10250 | a closed stream leaves with all its tokens returned |
| `MuxReceive.Session.PreparePayload` | ngx_stream_trojan_module.c:8771-8822 | a frame for an open stream goes straight in, is deferred, or waits, and is funded in full when accepted |
| `MuxReceive.Session.RecvDirect` | ngx_stream_trojan_module.c:6999-7077 | what recv returned is at the end of the line; room and tokens last for the rest of the frame, so the full-buffer branch is dead |
| `MuxReceive.Session.RecvDeferred` | ngx_stream_trojan_module.c:8906-8984 | the same behind the deferred frames; the branches for want of tokens are dead |
| `MuxReceive.Session.RecvAside` | ngx_stream_trojan_module.c:6999-7077 | what recv returned waits behind the octets not yet fed |
| `MuxReceive.Session.ReadPayload` | ngx_stream_trojan_module.c:6999-7077 | the payload of a frame is read on whichever path, the invariant kept however recv splits it |
| `MuxReceive.Session.HandlePsh` | ngx_stream_trojan_module.c:8155-8258 | a complete PSH is in its stream's line, or kept whole for another try |
| `MuxReceive.Session.HandleFin` | ngx_stream_trojan_module.c:8155-8258 | FIN is noted; a stream without its header closes |
| `MuxReceive.Session.HandleSyn` | ngx_stream_trojan_module.c:8155-8258 | even ids and a 65th stream are errors, known ids ignored, all other streams kept |
| `MuxReceive.Session.ReadClient` | ngx_stream_trojan_module.c:7615-7740 | the invariant is kept over any run of the read loop |
| `MuxRequest.HeaderRead` | ngx_stream_trojan_mux.c:54-101 | a frame written with the numbers 0 to 4 for its commands, its length and its stream in octets from the least on, is read as what was written |
| `MuxRequest.LinesComeOut` | ngx_stream_trojan_module.c:7615-7740 | the payload of every stream comes out of a client's frames whole and in order, whatever frames of other streams stand between |
| `MuxRequest.PayloadGrows` | ngx_stream_trojan_module.c:6999-7077 | what has arrived of a client's frames brings the beginning of what all of them bring |
| `MuxRequest.RequestRead` | ngx_stream_trojan_mux.c:181-233 | a request header, command, address and port, is taken for exactly its own octets, whatever follows |
| `MuxRequest.RequestCut` | ngx_stream_trojan_mux.c:181-233 | nothing shorter is taken for one, and no octet past its end is asked for |
| `MuxRequest.RequestWasWritten` | ngx_stream_trojan_mux.c:181-233 | what is taken for a request header was written as one |
| `MuxRequest.RefusedForGood` | ngx_stream_trojan_mux.c:181-233 | what is refused cannot begin a request header |
| `MuxRequest.NeedCanBeMet` | ngx_stream_trojan_mux.c:181-233 | from two octets on, what is not refused can be made one |
| `MuxRequest.HeaderTaken` | ngx_stream_trojan_mux.c:181-233 | a line with a request header in front has that header taken off it and keeps the rest |
| `MuxRequest.ClientIsServed` | ngx_stream_trojan_module.c:9333-9422 | a client whose frames bring a stream the header of its request and then a payload has that header for its request and that payload, as far as it has arrived, for its line: sent, buffered, deferred and unfed |
| `MuxWindow.WrapMinus` | ngx_stream_trojan_module.c:7383-7418 | differences of wrapped counters are wrapped differences |
| `MuxWindow.TotalWraps` | ngx_stream_trojan_module.c:8225-8253 | an unwrapped total stands behind every wrapped report |
| `MuxWindow.InFlight` | ngx_stream_trojan_module.c:7383-7418 | octets in flight below half the range are read back exactly, whatever wrapped |
| `MuxWindow.Sender.Update` | ngx_stream_trojan_module.c:8225-8253 | a report beyond what was sent is refused, any other believed; the invariant is kept if and only if the window is below 2^31 and still holds the frame begun, as with every peer whose limit does not go back |
| `MuxWindow.Sender.SendWindow` | ngx_stream_trojan_module.c:7383-7418 | the window is the least of 32768 and what the limit leaves; the negative in-flight branch is dead |
| `MuxWindow.Sender.OpenFrame` | ngx_stream_trojan_module.c:7421-7511 | a new frame fits the window and takes all of it that there is data for |
| `MuxWindow.Sender.Sent` | ngx_stream_trojan_module.c:7221-7380 | what was sent and the rest of the frame never pass the limit |
| `MuxWindow.Sender.Flush` | ngx_stream_trojan_module.c:7421-7511 | the same over a whole flush; it stops for the window only when the limit is reached |
| `MuxWindow.ReportRead` | ngx_stream_trojan_module.c:8004-8031 | the client parses an UPD frame back as the total it reports, modulo 2^32, and the buffer size |
| `MuxWindow.ReportsWhole` | ngx_stream_trojan_module.c:8034-8086 | reports one after another are whole frames and bring no stream any payload |
| `MuxWindow.Receiver.PackFrame` | ngx_stream_trojan_module.c:8004-8031 | the sixteen octets of the frame for the latest total |
| `MuxWindow.Receiver.Deliver` | ngx_stream_trojan_module.c:9116-9183 | after every delivery the unreported octets equal the counter difference and stay below 32768; nothing said before changes |
| `MuxWindow.Receiver.QueueUpdate` | ngx_stream_trojan_module.c:9157-9183 | a frame not begun is packed again, one begun is followed by another |
| `MuxWindow.Receiver.FlushUpdate` | ngx_stream_trojan_module.c:8034-8086 | a frame begun keeps its sixteen octets; what is complete is told once more |
| `MuxWindow.Receiver.PeerKeepsUp` | ngx_stream_trojan_module.c:9115-9183 | in every state the connection took whole UPD frames and the start of one; reports rise and never pass what was consumed; with nothing queued the peer is behind by less than the threshold |
| `WsCodec.VerdictStands` | ngx_stream_trojan_websocket_protocol.c:706-815 | more octets never change a header's verdict |
| `WsCodec.HeaderExact` | ngx_stream_trojan_websocket_protocol.c:706-815 | a header is decided by exactly its own octets |
| `WsCodec.NeededExact` | ngx_stream_trojan_websocket_protocol.c:706-815 | asking for what is needed never reads past the header |
| `WsCodec.NeedMoreBefore` | ngx_stream_trojan_websocket_protocol.c:706-815 | a prefix of an undecided header is undecided |
| `WsCodec.BuiltHeader` | ngx_stream_trojan_websocket_protocol.c:818-858 | what is built is parsed back, whatever follows |
| `WsCodec.XorTwice` | ngx_stream_trojan_websocket_protocol.c:878-910 | masking twice is not masking, on words |
| `WsCodec.XorWord` | ngx_stream_trojan_websocket_protocol.c:878-910 | one exclusive or of two words is one per octet |
| `WsCodec.MaskedTwice` | ngx_stream_trojan_websocket_protocol.c:878-910 | masking twice is not masking, on payloads |
| `WsCodec.MaskedParts` | ngx_stream_trojan_websocket_protocol.c:878-910 | however a payload is cut, its parts are masked at the running offset |
| `WsCodec.MaskComesRound` | ngx_stream_trojan_websocket_protocol.c:861-875 | the mask word is the same eight octets further on |
| `WsCodec.WordMasked` | ngx_stream_trojan_websocket_protocol.c:878-910 | masking by 64-bit words is masking by octets |
| `WsCodec.ApplyMask` | ngx_stream_trojan_websocket_protocol.c:878-910 | in place, for every address and offset, exactly the payload is masked octet by octet |
| `WsStream.DataBodySplit` | ngx_stream_trojan_module.c:3272-3426 | a data payload may be cut anywhere |
| `WsStream.ControlBodySplit` | ngx_stream_trojan_module.c:3272-3426 | so may a control payload |
| `WsStream.HeaderRead` | ngx_stream_trojan_module.c:3199-3255 | after a header comes its payload or its verdict |
| `WsStream.HeadGrows` | ngx_stream_trojan_module.c:3272-3426 | header octets may arrive in any pieces |
| `WsStream.HeadDone` | ngx_stream_trojan_module.c:3199-3255 | a complete header starts its frame, or ends the stream on a violation |
| `WsStream.InsideMoves` | ngx_stream_trojan_module.c:3272-3426 | payload octets come out unmasked, in order |
| `WsStream.InsideEnds` | ngx_stream_trojan_module.c:3134-3196 | the end of a frame is the end of its message part, PONG, PING or CLOSE |
| `WsStream.FaithfulPrefix` | ngx_stream_trojan_module.c:3272-3426 | what came out is the beginning of what the wire says, and all of it once the stream has ended |
| `WsStream.NothingAfterEnd` | ngx_stream_trojan_module.c:3101-3131 | nothing after a violation or CLOSE is ever delivered |
| `WsClient.LengthRead` | ngx_stream_trojan_websocket_protocol.c:747-782 | each of the three forms of a length is read as the length written |
| `WsClient.HeaderIsRead` | ngx_stream_trojan_websocket_protocol.c:706-815 | a client's header is read as written: final bit, opcode, length, and the mask in the order of its octets |
| `WsClient.HeaderWasWritten` | ngx_stream_trojan_websocket_protocol.c:706-815 | a masked header that is read was written so: no length in a form longer than it needs, no control frame cut or too long |
| `WsClient.XorIsBitwise` | ngx_stream_trojan_websocket_protocol.c:878-910 | each bit of the exclusive or is one where the bits differ |
| `WsClient.MaskedIsBitwise` | ngx_stream_trojan_websocket_protocol.c:878-910 | octet i of a masked payload differs from the payload's in exactly the bits of octet i modulo 4 of the mask |
| `WsClient.FrameSays` | ngx_stream_trojan_module.c:3199-3255 | a client's frame brings its payload unmasked, or a control frame, or the end |
| `WsClient.MessagesAreRead` | ngx_stream_trojan_module.c:3272-3426 | messages cut into BINARY and CONT frames, with PING and PONG between, come out as their payloads joined in order, with reading going on behind them |
| `WsClient.WholeIsRead` | ngx_stream_trojan_module.c:3272-3426 | so does a whole conversation, with or without a CLOSE at its end |
| `WsClient.WrongIsRefused` | ngx_stream_trojan_module.c:3199-3255 | text ends it with 1003, a message begun inside another or a fragment of none with 1002, after everything before was delivered |
| `WsClient.UnmaskedIsRefused` | ngx_stream_trojan_module.c:3199-3255 | so does a frame without a mask, with 1002 |
| `WsInbound.Inbound.DeliveredInOrder` | ngx_stream_trojan_module.c:3272-3426 | in every state the octets delivered begin the unmasked data payloads of everything received, in order, and after a violation or CLOSE are all of them |
| `WsInbound.Inbound.ReadRaw` | ngx_stream_trojan_module.c:2874-2919 | octets pass through the raw buffer in order |
| `WsInbound.Inbound.ReadPayload` | ngx_stream_trojan_module.c:2922-2959 | from the raw buffer first, then straight off the connection |
| `WsInbound.Inbound.DataChunk` | ngx_stream_trojan_module.c:3272-3426 | a chunk is unmasked in place and delivered |
| `WsInbound.Inbound.ControlChunk` | ngx_stream_trojan_module.c:3272-3426 | control octets are collected and never delivered |
| `WsInbound.Inbound.StartFrame` | ngx_stream_trojan_module.c:3199-3255 | the frame is entered or refused as section 5.2 of RFC 6455 says |
| `WsInbound.Inbound.FrameEnd` | ngx_stream_trojan_module.c:3134-3196 | a finished frame delivers nothing more; a CLOSE ends the stream |
| `WsInbound.Inbound.HeaderTurn` | ngx_stream_trojan_module.c:3272-3426 | whichever of the two header sources is used, the same header is read |
| `WsInbound.Inbound.ClientRecv` | ngx_stream_trojan_module.c:3272-3426 | delivers some next octets or says there are none, for every recv split and size asked |
| `WsClient.ClientIsHeard` | ngx_stream_trojan_module.c:3272-3426 | while a client sends such messages its reader never ends the stream and has delivered the beginning of what was sent, and all of it once nothing is left to read |
| `WsOutbound.ControlFrameRead` | ngx_stream_trojan_module.c:3012-3074 | a queued control frame is read back as that frame |
| `WsOutbound.CloseInsidePong` | ngx_stream_trojan_module.c:3012-3074 | a concrete PONG begun, then CLOSE in its place: the reader never sees the CLOSE |
| `WsOutbound.CloseLost` | ngx_stream_trojan_module.c:3012-3074 | with part of a PONG out the reader is never at a frame boundary |
| `WsOutbound.Outbound.ReadExactly` | ngx_stream_trojan_module.c:3429-3616 | in every state the octets the connection took are read as exactly the payload reported as sent, with PONGs between frames |
| `WsOutbound.Outbound.FlushOut` | ngx_stream_trojan_module.c:2970-3009 | control octets go out only between data frames |
| `WsOutbound.Outbound.Push` | ngx_stream_trojan_module.c:2970-3009 | part of a control frame says nothing, all of it says just that |
| `WsOutbound.Outbound.Enqueue` | ngx_stream_trojan_module.c:3012-3074 | the framing is kept if and only if no CLOSE takes the place of a PONG already begun |
| `WsOutbound.Outbound.QueueControl` | ngx_stream_trojan_module.c:3012-3074 | the same with the flush that may follow |
| `WsOutbound.Outbound.BuildFrame` | ngx_stream_trojan_module.c:3429-3616 | a frame is announced exactly for sizes the header can carry |
| `WsOutbound.Outbound.HeaderOut` | ngx_stream_trojan_module.c:3429-3616 | header octets may go out in any pieces |
| `WsOutbound.Outbound.PayloadOut` | ngx_stream_trojan_module.c:3429-3616 | payload octets the connection took are the ones the reader gets |
| `WsOutbound.Outbound.Divide` | ngx_stream_trojan_module.c:3429-3616 | what was taken divides over header, first and second part in order, merged into headroom or not |
| `WsOutbound.Outbound.SendOut` | ngx_stream_trojan_module.c:3429-3616 | the connection is handed header, first and second part in this order |
| `WsOutbound.Outbound.SendParts` | ngx_stream_trojan_module.c:3429-3616 | exactly the octets reported as sent were added to what the reader gets, for every partial send |
| `DohStream.FirstCrlfStays` | ngx_stream_trojan_doh.c:2122-2145 | a line end is where it is, whatever follows |
| `DohStream.ChunkStays` | ngx_stream_trojan_doh.c:1845-1966 | so is the verdict on a chunk |
| `DohStream.TurnStays` | ngx_stream_trojan_doh.c:2149-2390 | so is every decision of the reader |
| `DohStream.AdvanceOn` | ngx_stream_trojan_doh.c:2149-2390 | reading on from what was kept is reading from the start |
| `DohStream.AdvanceShrinks` | ngx_stream_trojan_doh.c:1845-1966 | decoding never needs more room than it was given |
| `DohStream.FeedIsMeaning` | ngx_stream_trojan_doh.c:2149-2390 | octets handed over at once or one by one come to the same, at the buffer limit too |
| `DohStream.RunIsMeaning` | ngx_stream_trojan_doh.c:2149-2390 | so does any run of reads |
| `DohStream.SplitsAgree` | ngx_stream_trojan_doh.c:2149-2390 | however recv splits one response, the decoded body is the same or every reading fails |
| `Ascii.SpellingFolds` | ngx_stream_trojan_doh.c:2310-2358 | a comparison without letter case takes every spelling of a word, and nothing else |
| `DohSender.AtoiMeans` | ngx_stream_trojan_doh.c:2310-2325 | a number is read exactly when it is written in decimal digits |
| `DohSender.SizeSoFar` | ngx_stream_trojan_doh.c:1880-1904 | after every digit the size is the number written so far, refused as soon as it is over the limit |
| `DohSender.SizeIsRead` | ngx_stream_trojan_doh.c:1880-1904 | a chunk size in hexadecimal digits of either case, with any extension behind it, is read as the number it writes, and refused exactly above 4096 |
| `DohSender.ChunkIsRead` | ngx_stream_trojan_doh.c:1845-1966 | a chunk is read as the data written in it |
| `DohSender.TrailerIsRead` | ngx_stream_trojan_doh.c:1908-1942 | trailer lines are passed over up to the empty one |
| `DohSender.LastIsRead` | ngx_stream_trojan_doh.c:1908-1942 | a chunk of size zero, any trailer and the empty line end the body |
| `DohSender.ChunksAreRead` | ngx_stream_trojan_doh.c:1845-1966 | however a body is divided into chunks, it is what comes out of them, whatever follows |
| `DohResponse.TokenMeans` | ngx_stream_trojan_doh.c:1814-1842 | a token is found in a field exactly when it is the first word of an element of its list |
| `DohResponse.NamesMean` | ngx_stream_trojan_doh.c:2310-2358 | a line is one of the three fields exactly when it begins with its name in any letter case |
| `DohResponse.LengthLine` | ngx_stream_trojan_doh.c:2310-2325 | a length up to 4096 is set as written behind any blanks, one above refuses the response |
| `DohResponse.ChunkedLine` | ngx_stream_trojan_doh.c:2347-2358 | chunks are announced exactly by a transfer encoding that lists them |
| `DohResponse.ConnectionLine` | ngx_stream_trojan_doh.c:2327-2345 | "close" counts for good, "keep-alive" only where it has not been said |
| `DohResponse.LinesRead` | ngx_stream_trojan_doh.c:2254-2363 | each header line sets what it says and nothing else |
| `DohResponse.StatusRead` | ngx_stream_trojan_doh.c:2211-2252 | the status is the three digits behind the version |
| `DohResponse.HeadRead` | ngx_stream_trojan_doh.c:2211-2363 | a head within 4096 octets is followed by a body if its status is 200 to 299, else the response fails |
| `DohResponse.HeadWithLength` | ngx_stream_trojan_doh.c:2211-2363 | the last line that names a length decides it |
| `DohResponse.ChunkedIsRead` | ngx_stream_trojan_doh.c:2149-2390 | a whole response in chunks is read as the data of its chunks joined, whatever it says of a length |
| `DohResponse.LengthIsRead` | ngx_stream_trojan_doh.c:2149-2390 | one with a length is read as that many octets |
| `DohResponse.RestIsRead` | ngx_stream_trojan_doh.c:1969-1995 | one with neither is read as all that comes before the connection ends |
| `DohResponse.MeaningSays` | ngx_stream_trojan_doh.c:2149-2390 | a reader with room for 4096 octets makes of a response what it says, or fails for want of room |
| `DohResponse.ResponseIsRead` | ngx_stream_trojan_doh.c:2149-2390 | up to 4096 octets, in any pieces recv makes of them, are read as what they say; 4096 that end nothing fail |
| `DohReader.FindCrlf` | ngx_stream_trojan_doh.c:2122-2145 | the resumable cursor finds the first line end and misses none across reads |
| `DohReader.Reader.ReadStatus` | ngx_stream_trojan_doh.c:2149-2390 | the status line is read once it is complete, as the specification reads it |
| `DohReader.Reader.ReadHeaders` | ngx_stream_trojan_doh.c:2149-2390 | the header lines are read and the unfinished one moved to the front |
| `DohReader.Reader.HeaderTurn` | ngx_stream_trojan_doh.c:2149-2390 | one line decides what the specification says it does |
| `DohReader.Reader.BodyReady` | ngx_stream_trojan_doh.c:1969-1995 | the body is found complete exactly when the specification does |
| `DohReader.Reader.DecodeChunked` | ngx_stream_trojan_doh.c:1845-1966 | in place, decoded octets then raw tail stand for everything received (section 7.1 of RFC 9112) |
| `DohReader.Reader.DecodeTurn` | ngx_stream_trojan_doh.c:1845-1966 | one chunk moves down behind the decoded octets |
| `DohReader.Reader.NextChunk` | ngx_stream_trojan_doh.c:1845-1966 | size line, data and line end, or trailers, are recognised without moving anything |
| `DohReader.Reader.ChunkSize` | ngx_stream_trojan_doh.c:1845-1966 | the hexadecimal size with its overflow check and extension |
| `DohReader.Reader.FinishAtEof` | ngx_stream_trojan_doh.c:1969-1995 | the end of the connection ends a body without length, or fails |
| `DohReader.Reader.ReadHandler` | ngx_stream_trojan_doh.c:2149-2390 | after every read the buffer means what all octets received mean |
| `DohScheduler.Logged` | ngx_stream_trojan_doh.c:2471-2540 | recording an event keeps every lookup's history orderly |
| `DohScheduler.LastOfIt` | ngx_stream_trojan_doh.c:2471-2540 | nothing follows a lookup's end |
| `DohScheduler.Created` | ngx_stream_trojan_doh.c:1542-1614 | a new lookup joins with the counters right |
| `DohScheduler.Activated` | ngx_stream_trojan_doh.c:1445-1516 | a place is taken only below 32, and active counts the flags |
| `DohScheduler.Queued` | ngx_stream_trojan_doh.c:1542-1614 | a waiting lookup joins the queue with its count |
| `DohScheduler.Dequeued` | ngx_stream_trojan_doh.c:1519-1539 | one that leaves it is counted off |
| `DohScheduler.Gone` | ngx_stream_trojan_doh.c:2393-2540 | a lookup that ends gives its place back, once |
| `DohScheduler.Fates` | ngx_stream_trojan_doh.c:2471-2540 | every lookup is in flight or ended exactly once; a retry comes at most once and never after an octet was sent |
| `DohScheduler.Scheduler.StartHttp` | ngx_stream_trojan_doh.c:1683-1804 | sending, failing and retrying keep all counts, whatever callbacks do |
| `DohScheduler.Scheduler.Retry` | ngx_stream_trojan_doh.c:1209-1250 | only over a reused connection, once, before any octet; else nothing changes |
| `DohScheduler.Scheduler.StartRequest` | ngx_stream_trojan_doh.c:1445-1516 | a start succeeds or leaves every lookup as it was |
| `DohScheduler.Scheduler.Finish` | ngx_stream_trojan_doh.c:2471-2540 | one callback, the place given back, waiting lookups started |
| `DohScheduler.Scheduler.Callback` | ngx_stream_trojan_doh.c:2471-2540 | a callback may start and cancel lookups and the invariant stays |
| `DohScheduler.Scheduler.RunPending` | ngx_stream_trojan_doh.c:1519-1539 | afterwards a waiting lookup means 32 active ones |
| `DohScheduler.Scheduler.Resolve` | ngx_stream_trojan_doh.c:1542-1614 | busy exactly with 32 active and 256 waiting; accepted exactly when a callback is owed |
| `DohScheduler.Scheduler.Cancel` | ngx_stream_trojan_doh.c:2431-2468 | no callback, the place given to a waiting lookup |
| `DohScheduler.Scheduler.Handle` | ngx_stream_trojan_doh.c:1618-1680 | every event keeps active at most 32 and equal to the flags, queue and idle counts exact and bounded, and waiting only behind 32 active |
| `Labels.JoinSplit` | ngx_stream_trojan_doh.c:24-89 | splitting at the dots and joining again gives the name back |
| `Labels.SplitJoin` | ngx_stream_trojan_doh.c:1998-2088 | labels without dots are recovered from the joined name |
| `Labels.NextIs` | ngx_stream_trojan_protocol.c:25-61 | the octets up to the next dot are the next label |
| `DnsQuery.SkipName` | ngx_stream_trojan_doh.c:94-129 | the offset where the specification ends the name, or none |
| `DnsQuery.SkipTurn` | ngx_stream_trojan_doh.c:94-129 | each branch of the loop is one case of the name grammar of section 4.1.4 of RFC 1035 |
| `DnsQuery.NameIsRead` | ngx_stream_trojan_doh.c:94-129 | a name written with labels and root or pointer is read back, whatever follows |
| `DnsQuery.ReadWasWritten` | ngx_stream_trojan_doh.c:94-129 | and whatever is read as a name was written so |
| `DnsQuery.QueryAsks` | ngx_stream_trojan_doh.c:24-85 | a query's header is a standard query's with recursion desired and one question (section 4.1.1 of RFC 1035) |
| `DnsQuery.QuerySkipped` | ngx_stream_trojan_doh.c:94-129 | over a built query the skipped name is the name asked, ending at QTYPE |
| `DnsQuery.LabelTaken` | ngx_stream_trojan_doh.c:24-89 | one turn of the outer loop takes the next label and the dot after it, or the name is refused rightly |
| `DnsQuery.PutLabel` | ngx_stream_trojan_doh.c:24-89 | a label of 1 to 63 octets is written behind its length, any other refused |
| `DnsQuery.BuildQuery` | ngx_stream_trojan_doh.c:24-89 | with enough room succeeds exactly on names of at most 253 octets plus an optional trailing dot with all labels 1 to 63, and then writes that query |
| `DnsAnswer.RecordIsRead` | ngx_stream_trojan_doh.c:163-273 | a record is read back as it was written |
| `DnsAnswer.RecordWasWritten` | ngx_stream_trojan_doh.c:163-273 | and what is read was written so |
| `DnsAnswer.RecordsAreRead` | ngx_stream_trojan_doh.c:163-273 | so for a whole section |
| `DnsAnswer.RecordsWereWritten` | ngx_stream_trojan_doh.c:163-273 | in both directions |
| `DnsAnswer.InAddressesExact` | ngx_stream_trojan_doh.c:213-262 | the addresses taken are those of the Internet class if and only if every address record is of that class |
| `DnsAnswer.MinTtlIsLeast` | ngx_stream_trojan_doh.c:163-273 | the time to live is the least of all A, AAAA and CNAME records |
| `DnsResponse.ReplyToMessage` | ngx_stream_trojan_doh.c:163-273 | a message is answered with exactly the A and AAAA data of its answers in order and their least time to live, all ones mapped to zero, unless its header or their number forbids |
| `DnsResponse.RefusedExactly` | ngx_stream_trojan_doh.c:163-273 | a message fails if and only if its header is no proper answer to the query or its addresses are more than one per sixteen octets, plus one |
| `DnsResponse.OtherClassAnswered` | ngx_stream_trojan_doh.c:223-262 | one A record of class 3 is answered as an address |
| `DnsResponse.AddressesAreWritten` | ngx_stream_trojan_doh.c:163-273 | and addresses come from nowhere else |
| `DnsResponse.RoomyFits` | ngx_stream_trojan_doh.c:163-273 | answers whose owners are not the bare root are never too many |
| `DnsResponse.RootAnswersRefused` | ngx_stream_trojan_doh.c:212-216 | n bare-root A records and no question are refused if and only if n is at least 29 |
| `DnsResponse.ParseResponse` | ngx_stream_trojan_doh.c:163-273 | one pass over the message computes that answer |
| `DnsResponse.SkipQuestions` | ngx_stream_trojan_doh.c:203-207 | the questions are passed over or the message fails |
| `DnsResponse.NextRecord` | ngx_stream_trojan_doh.c:223-262 | type, time to live and data of the record that is there; the class is not looked at |
| `DnsResponse.TooMany` | ngx_stream_trojan_doh.c:236-243 | once there is no room for one more address the message fails, whatever follows |
| `DnsRefusal.FitsMeans` | ngx_stream_trojan_doh.c:2047-2079 | the labels fit exactly when, joined by dots, they are the name with an optional trailing dot, letter case aside |
| `DnsRefusal.QuestionEchoed` | ngx_stream_trojan_doh.c:1998-2088 | a question built for another name fits if and only if the names are the same up to letter case and the root's dot, and the types equal |
| `DnsRefusal.FitsIsSameLabels` | ngx_stream_trojan_doh.c:2047-2079 | labels that fit are the name's labels if and only if none contains a dot |
| `DnsRefusal.DottedLabelFits` | ngx_stream_trojan_doh.c:2047-2079 | a concrete label with a dot in it that is taken for two |
| `DnsRefusal.NegativeCacheable` | ngx_stream_trojan_doh.c:1998-2088 | the loop decides exactly that, header conditions included |
| `TrojanUdp.CheckDomain` | ngx_stream_trojan_protocol.c:25-61 | the one-pass loop accepts exactly printable names of at most 253 octets with all labels 1 to 63 |
| `TrojanUdp.ParsePacked` | ngx_stream_trojan_protocol.c:423-523 | parsing undoes packing with any trailing octets, for exactly the addresses with a port and, if a domain, a valid one |
| `TrojanUdp.StrictPrefix` | ngx_stream_trojan_protocol.c:423-523 | every strict prefix of a frame asks for more |
| `TrojanUdp.ParsedIsPacked` | ngx_stream_trojan_protocol.c:595-623 | packing undoes parsing |
| `TrojanUdp.RefusedAtOnce` | ngx_stream_trojan_protocol.c:423-523 | a kind of address there is not, or a domain of no octets, is refused as soon as it is seen |
| `TrojanUdp.UnreadableRefused` | ngx_stream_trojan_protocol.c:423-523 | an address without a port, or with a domain that is not valid, is refused with its last octet |
| `TrojanUdp.VerdictStands` | ngx_stream_trojan_protocol.c:423-523 | a verdict once given stands |
| `TrojanUdp.FullMeansTooBig` | ngx_stream_trojan_module.c:11251-11257 | a full buffer that asks for more starts a frame with over 16384 octets of payload |
| `TrojanUdp.SmallFits` | ngx_stream_trojan_module.c:29-31 | a frame with at most 16384 octets of payload fits the buffer |
| `TrojanUdp.BuildHeader` | ngx_stream_trojan_protocol.c:525-592 | the header is written exactly for well-formed addresses with room, else nothing is |
| `TrojanUdp.Pack` | ngx_stream_trojan_protocol.c:595-623 | the frame is written exactly for well-formed addresses with room for all of it |
| `TrojanUdp.FramesOf` | ngx_stream_trojan_module.c:11180-11282 | a stream of packed frames parses back as those frames, then what follows |
| `TrojanUdp.AccountTakes` | ngx_stream_trojan_module.c:3827-3839 | taking a frame moves it from the unread octets to the frames done |
| `TrojanUdp.ParsedIsAskable` | ngx_stream_trojan_protocol.c:423-523 | every domain the parser takes is one a DNS query can be built for |
| `TrojanUdp.KeptAll` | ngx_stream_trojan_module.c:11285-11470 | nothing is lost if and only if no frame met a way that loses it |
| `TrojanUdp.FrameLost` | ngx_stream_trojan_module.c:4158-4162 | a frame for a name at a full engine and one for an address at a blocked socket: read off the stream and gone |
| `TrojanUdp.Input.Compact` | ngx_stream_trojan_module.c:3781-3794 | unread octets move to the front |
| `TrojanUdp.Input.Consume` | ngx_stream_trojan_module.c:3827-3839 | exactly the parsed frame leaves the buffer |
| `TrojanUdp.Input.Receive` | ngx_stream_trojan_module.c:11263-11279 | what was received stands behind the unread octets |
| `TrojanUdp.Input.SendTo` | ngx_stream_trojan_module.c:11904-11953 | a datagram that goes out, one the socket would block, and one it fails |
| `TrojanUdp.Input.SendFrame` | ngx_stream_trojan_module.c:11285-11470 | a frame whose name is to be resolved leaves the buffer before the resolver is asked, any other stays; it is kept exactly unless its way loses it |
| `TrojanUdp.Input.Process` | ngx_stream_trojan_module.c:11180-11282 | the frames that leave the buffer are the first of the client's stream, each once and in order, all of them when it waits for more; those that go out or to a resolver are all of them if and only if none met a full engine, a lookup of the session under way, one that could not start, or a socket that would block; none with at most 16384 octets of payload is refused for room |

## Left out

- NGINX events, timers, pools, logging, sockets, TLS and batching of datagrams: plumbing; what can happen there is an arbitrary choice of the environment. Allocation succeeds.
- PCRE, geosite and geoip answers inside DNS rules and routes: oracle functions. `DnsRules` and `Routes` ask that regexes ignore ASCII case, as they are compiled to; the geosite matcher gives a regex the folded host when it fits the key buffer, as the code does.
- Hash mixing, seeds and the randomised choice of a cache set: arbitrary functions. The generation counters of the caches do not wrap.
- Overflow checks on table sizes near the limit of the address space, and keyword tries with 2^32 nodes, which the keyword octet limit excludes.
- The geosite file reader, the rule and route file parsers and the configuration: they turn files and directives into the rule lists that are given here, checking syntax on the way.
- Probe indexes and the automaton are frozen as values once built; the code does not write them after preparation either.
- SetCache.Cache.Lookup: the DNS-over-HTTPS and UDP name caches are not modelled; they do not keep keys unique.
- MuxStream: buffers and deferred frames are values with a position and a size in a field of the stream; memory reuse through free lists is not modelled.
- MuxReceive.Session.ReadClient: the order in which events fire, the budgets and fairness are not modelled; the connection upstream comes up, fails or waits as the environment likes.
- MuxReceive.Session.Cleanup: called when the client side of the stream is done, a condition that is not part of the model.
- MuxWindow: one stream at a time. The octets its Receiver is told of are those of MuxReceive.Session.ConsumedIsRequestAndSent; the two are separate objects.
- MuxWindow.Sender.Update: a peer that takes back so much that the frame begun no longer fits, or opens a window of 2^31 or more, ends the invariant, which is said in its contract; nothing is said of what follows.
- MuxTable and MuxReceive model the streams separately: the first with its cells, the second as the map that the table is proved to be.
- The mux.cool and sing variants, and frames of several streams interleaved towards the client.
- WsInbound.Inbound.FrameEnd: notes the PONG or CLOSE to be sent as part of what was read; sending it is WsOutbound, and the two are not composed.
- WsOutbound.Outbound.SendOut: hands the header on as it is; that it is first copied in front of the payload when it fits there is a move in memory that the connection does not see.
- WsOutbound.Outbound.QueueControl: says nothing of the framing after a CLOSE over a PONG already begun, where it is lost.
- The WebSocket handshake, SHA-1, SHA-224 and base64.
- DohReader.Reader.ReadHandler: the flag that closes the connection after the response is not modelled; surplus octets in the same read set it, so it depends on the split, and it only decides whether the connection is kept. A write error under a response already begun is not modelled either.
- DohStream.SplitsAgree: pieces are what `recv` may return when asked for the room left, so none is larger than that room.
- DohScheduler.Scheduler.Handle: the decisions of the environment during one event are a finite list; cached names, which answer at once, the free list of contexts and timers are left out.
- DohScheduler.Scheduler.Resolve: starts where the name is not cached, the caller has no lookup under way and the query could be built; in the other cases the engine is not touched.
- DnsQuery and the modules after it: IPv6 is compiled in; the DNS message is read as a value, which the parser does not write.
- TrojanUdp.Input.Process: what becomes of a datagram after it is sent or taken over by a resolver, how an outbound and its address are found, and the way back to the client are left out; what a frame meets is given for each.
- SOCKS5 and HTTP CONNECT handshakes, the canned fallback responses, and the limits of the plain relay.
