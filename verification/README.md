# A model of go-dnsmasq

go-dnsmasq is a caching and forwarding DNS server. This project models the parts of it that
carry state or loops, and proves what they keep over whole runs:

- **The response cache** (`CacheState.dfy`, `Cache.dfy`, `CacheRuns.dfy`, `CacheKey.dfy`,
  `CacheIdentity.dfy`). The cache is a class whose map holds pointers to messages. Every call is
  also an event; a ghost list of events is kept, and `Valid` says that the stored entries are what
  the run of those events leaves behind. Whole-run theorems are then about runs. Each reading of
  the clock inside a call is a separate number. The contract of a single call holds for any
  readings; only theorems that need it ask for a clock that does not run backwards (`Timed`).
- **Resolution** (`Resolution.dfy`, `ForwardPlan.dfy`, `Forwarder.dfy`). The upstream is an arbitrary
  function of everything sent so far. The loops are proved equal to recursive functions, and the
  functions are characterised separately.
- **Serving a request** (`Requests.dfy`, `Server.dfy`). Cache, hosts file and forwarder put together, with
  `Fit` (`Fit.dfy`) and the round-robin shuffle. `Requests.dfy` says what one request leads to and what
  follows from that; the methods of `Server.dfy` are proved to do it. The server keeps a ghost list of
  the questions asked and the replies written, so that a cached reply can be traced to where it came from.
- **The hosts file** (`Hosts.dfy`) and **resolv.conf** (`ResolvConf.dfy`), as text algorithms.

The methods and the functions that specify them say what the code does. The theorems about them are
stated in other words, namely fields of messages, records and configurations and the numbers of the
protocol (`HandedOn`, `CutFor`, `AsksFor`, `Lives` and their like), so that they hold only of functions
that do the right thing.

`Strings.dfy` and `Dns.dfy` hold the library functions and message types the code uses. `Seals.dfy`
explains the form in which a few large predicates are written so that the solver unfolds them only
where that is asked for.

## Where the code differs from what is said of it

- `Hit` removes an entry past its stale deadline even while it is valid, and that deadline counts
  from the insertion, not from the end of the TTL (cache/hit.go:34-36, cache/cache.go:188).
  A cached answer therefore serves every lookup until its TTL ends exactly when stale retention lasts
  as long as the TTL (`ServesUntilExpiryExactly`). With the default `rstale-ttl` of 0 an entry answers
  at most one lookup made after the instant of its insertion (`AtMostOneAnswerPastStale`).
- A stale entry may be served once after its stale deadline, where README.md:28 promises that it is not
  older: that holds of all timed runs exactly for a cache that keeps nothing (`NeverPastStaleExactly`,
  with one insertion and one lookup in `AnswerPastStale`). Whether a request is offered its expired entry
  depends on `rstale-ttl` being above 0 and on nothing else (`StaleOfferedExactly`), and the offer is taken
  after a negative reply as well as after an upstream failure (`StaleServedExactly`, `ForwardExactly`).
- A cache of capacity one is always empty, since the walk evicts as soon as the capacity is reached
  (`SizeUnderCapacity`).
- `Fit` says that a truncated message fits the buffer; it does exactly when its first answer alone fits,
  or when without answers it has just the size of the buffer (`OverflowFitsExactly`); in `OverflowExample`
  it does not.
- `rcache-non-negative` does not reach replies for the reverse zones: there a negative reply is stored
  exactly when the forwarder is asked and gives one (`NegativeStoredExactly`, `NegativeStoredExample`).
  Everything else in the cache is NOERROR then (`CachePositive`).
- A search indexes the question section of the message it ends with. When an upstream server left that
  empty, as in a bare refusal, the request ends in a run-time failure and gets no reply; this happens
  exactly under the condition of `SearchFailsExactly`, `ForwardFailsExactly` and `NoReplyExactly`, and does
  happen in `SearchFailureExample`.
- With `rcache-ttl-max` below `rcache-ttl`, which is accepted, long TTLs are cut to the smaller bound and
  short ones raised to the larger (`LowestTtlIsClamped`, `OverturnedBounds`).
- A wildcard in the hosts file matches names with exactly one more label (`WildcardSlices`,
  `WildcardExample`), where README.md:103 speaks of any subdomain. An exact entry hides all wildcards, also
  for queries of the other address family (`ExactHidesWildcards`).
- A host name of one character stops the reading of the hosts file with a slice error
  (`ReadingFailsExactly`, `ShortNameExample`).
- Cleaning resolv.conf restores the file only when no line carries a marker and no nameserver line
  is indented with blanks (`CleanUndoesStoreExactly`, `IndentedExample`).
- Query type 0xFFFE shares keys with other questions (`KeysMeetExactly`, `CollisionExample`).

## Model

| member | source | states |
|---|---|---|
| ResponseCache.Cache.constructor | cache/cache.go:112-124 | a new cache is empty and valid; durations and the 32-bit seconds wrap as in Go |
| ResponseCache.Cache.Remove | cache/cache.go:126-130 | exactly the key goes, and the call is logged |
| ResponseCache.Cache.EvictRandomInternal | cache/cache.go:132-156 | only a map of exactly the capacity loses an element, one that the walk meets first, and with `onlyStale` only if it is past its stale deadline |
| ResponseCache.Cache.EvictTwice | cache/cache.go:158-163 | both walks together remove exactly one element of a full map and none of any other |
| ResponseCache.Cache.EvictRandom | cache/cache.go:158-163 | the same, on the entries the map stands for |
| CacheState.MinTtl | cache/cache.go:259-269 | a lower bound of the TTLs that one record attains |
| CacheState.LowestTtlIsClamped | cache/cache.go:259-276 | for all bounds: with ordered bounds the lifetime lies between them, is the lowest TTL where that does, and the lower bound without answers; with bounds the wrong way round it is one of the two, and which one is decided by whether all answers reach the lower bound |
| CacheState.OverturnedBounds | cache/cache.go:270-276 | with bounds 60 and 0 a TTL of 10 becomes 60 and one of 1000 becomes 0 |
| CacheState.OneLifetime | cache/cache.go:180-187 | every message has exactly one lifetime: the configured one without rcache-ttl-from-resp, and with it the lowest TTL of its answers between the bounds, in seconds |
| CacheState.NewConfigExactly | cache/cache.go:112-124 | the five arguments of a new cache come to the capacity, the two durations wrapped to 64 bits, the option, and the bounds modulo 2^32 |
| ResponseCache.Cache.GetLowestTtl | cache/cache.go:259-276 | the loops compute the lowest TTL (0 without answers), raised to the minimum, else lowered to the maximum |
| ResponseCache.Cache.StoreMessage | cache/cache.go:172-195 | an absent or renewable key gets a fresh copy with both deadlines; any other entry stays |
| ResponseCache.Cache.InsertMessage | cache/cache.go:165-198 | the entries step as the event says, the cache stays explained by its log, and the stored message is a copy |
| ResponseCache.Cache.Search | cache/cache.go:200-214 | found exactly when present in an enabled cache, and handed out as a fresh copy |
| ResponseCache.Cache.Touch | cache/hit.go:26-36 | one hit is counted on the right counter, and an entry past its stale deadline goes |
| ResponseCache.Cache.Readdress | cache/hit.go:22-25 | only id, compression flag and TC bit of the copy change |
| ResponseCache.Cache.Hit | cache/hit.go:13-45 | the result and the new entries are those of the event; the message handed out is no object of the cache, so changing it changes no entry |
| CacheRuns.SizeUnderCapacity | cache/cache.go:134-163 | over every run the size between calls is below the capacity, and 0 for a disabled cache |
| CacheRuns.InsertEvictsAtMostOne | cache/cache.go:172-197 | inside an insertion the size never exceeds the capacity; reaching it removes exactly one element; a present key evicts nothing |
| CacheRuns.EntryComesFromOrigin | cache/cache.go:178-188 | over every run an entry is the message and the deadlines of the latest accepted insertion under its key: insertion time plus lifetime, and insertion time plus stale retention |
| CacheRuns.LookupReturnsLatestInsertion | cache/hit.go:15-45 | over every run a hit returns the latest accepted insertion with all its sections and all of its header but id and TC, and without stale entries only before insertion time plus lifetime |
| CacheRuns.AnsweredBeforeExpiry | cache/cache.go:112-188 | the same in the arguments of the constructor: before insertion plus rcache-ttl without the option, and with it before insertion plus the clamped lowest TTL of the answers |
| CacheRuns.HitsAreCounted | cache/hit.go:26-32 | over every run the two counters of an entry are the numbers of lookups it answered since its insertion while valid, and while stale |
| CacheRuns.GoneStaysGone | cache/cache.go:126-188 | over every run a key that left comes back only by a later accepted insertion |
| CacheRuns.AtMostOneAnswerPastStale | cache/hit.go:33-36 | over every run, of two lookups answered by the same accepted insertion the first saw its stale deadline not yet passed |
| CacheRuns.NeverPastStaleExactly | cache/hit.go:18-42 | no timed run gives a stale answer past its stale deadline if and only if the cache keeps nothing (capacity below two) |
| CacheRuns.AnswerPastStale | cache/hit.go:18-36 | for every other configuration one insertion and one lookup that is answered past both deadlines |
| CacheRuns.StaleOfferedExactly | cache/hit.go:18-42 | after a look that found the entry expired, the look for stale entries gets it if and only if stale retention is on, however old it is |
| CacheRuns.StepKeepsEntry | cache/cache.go:172-195 | deadlines and message of an entry change only by an accepted insertion under its key |
| CacheRuns.FreshEntryStays | cache/hit.go:18-42 | an entry that is neither removed nor evicted stays through any run that ends before both deadlines |
| CacheRuns.ServesUntilExpiryExactly | cache/hit.go:18-42 | every lookup before expiration is answered after every undisturbed run if and only if the lifetime of the message is at most the stale retention (to the nanosecond) |
| CacheRuns.EarlyRemoval | cache/hit.go:33-36 | with shorter retention, two lookups of a valid entry of which the second fails |
| CacheRuns.RefreshExactly | cache/cache.go:173-188 | when an expired entry is stored anew after both looks, as an if and only if over the readings |
| CacheKey.Key | cache/cache.go:216-228 | the appends build name, type, flags and the digest of nothing |
| CacheKey.SameLengthSameSubject | cache/cache.go:218-228 | equal keys with equally many flags come from the same question |
| CacheKey.FewerFlagsCollide | cache/cache.go:218-228 | equal keys with different flags meet only through type 0xFFFE |
| CacheKey.KeysMeetExactly | cache/cache.go:216-228 | for well-formed names, escapes included, two keys are equal if and only if the questions agree on name, type, DNSSEC flag and transport, or collide through type 0xFFFE |
| CacheKey.CollisionExample | cache/cache.go:278 | two well-formed questions with one key |
| CacheIdentity.HitsDoNotCross | cache/hit.go:15-17 | over every run of proper questions a hit comes from an insertion for the same name, type, DNSSEC flag and transport |
| Fitting.Fit | server/msg.go:14-54 | the in-place loop computes the recursive search for any length function, and terminates |
| Fitting.Shrink | server/msg.go:30-52 | the two bounds meet where the recursive search meets, and the final adjustment is applied |
| Fitting.FitKeepsTheRest | server/msg.go:14-54 | the additional section goes exactly from a message longer than the size; overflow, the TC bit and dropped answers exactly when it is then not under the size; nothing else changes, and the answers are a prefix |
| Fitting.MeetIsLeastOver | server/msg.go:34-48 | for growing lengths the bounds meet at the least number of answers that is not under the size |
| Fitting.FitKeepsLongestPrefix | server/msg.go:34-52 | how many answers are kept: those of the longest prefix under the size, or of the shortest over it when that has fewer than two |
| Fitting.OverflowFitsExactly | server/msg.go:9-13 | an overflowing message ends within the size if and only if its first answer alone is within it, or without answers it has exactly that size |
| Fitting.OverflowExample | server/msg.go:26-29 | a message that is longer than the size after the cut |
| Fitting.FitIsIdempotent | server/msg.go:14-54 | a second cut changes nothing |
| Resolution.ServersAskedInOrder | server/forwarding.go:274-303 | the request goes to a prefix of the list, once each; all but the last asked failed or, with rcache-non-negative, replied other than NOERROR; if some were not asked the last replied, and with the flag NOERROR; the outcome is its message or error |
| Resolution.NegativeAsksAll | server/forwarding.go:290-303 | with the flag a negative outcome means that the whole list was asked; without it every server asked before the last failed |
| Resolution.PickedServers | server/forwarding.go:263-272 | the list is that of a stub zone the name ends with, or the nameservers when there is none |
| Resolution.QueryYieldsMessage | server/forwarding.go:257-304 | without an error there is a message |
| Resolution.SearchNameShape | server/config.go:137-142 | a search name is the client's name and the domain without leading dots, in lower case, with a dot after each that lacks it |
| Resolution.SearchOrder | server/forwarding.go:186-219 | the domains are tried in configured order, leaving out exactly those the name ends with; NODATA, NXDOMAIN and SERVFAIL let the search go on, everything else ends it, and only then are domains left |
| Resolution.SearchQueries | server/forwarding.go:184-194 | only copies of the request with another name and the same type, class and rest are sent, and the last one asks for the name of the last step |
| Resolution.LatestIsLast | server/forwarding.go:204-210 | the message remembered is that of the last step with the property (NODATA in the code), with none after it |
| Resolution.SearchFailsExactly | server/forwarding.go:243-250 | a search fails at run time if and only if the message it ends with (the last NOERROR reply, else the last reply) has no question section |
| Resolution.SearchFailureExample | server/forwarding.go:243-244 | a search that ends with a refusal without question section and fails |
| Resolution.SearchSucceedsExactly | server/forwarding.go:227-252 | a search that does not fail at run time ends in NOERROR if and only if some name got NOERROR: no later negative reply or failure hides it |
| Resolution.SearchAnswersBehindCname | server/forwarding.go:228-246 | the first record is a CNAME (type 5, class 1, TTL 360) owned by the client's name whose target is the name in the last query sent, the others are that query's answers, and the question is the client's |
| Resolution.SearchReplyExactly | server/forwarding.go:221-254 | what a search comes to in every case, section by section: the NOERROR reply behind the CNAME, else the last NODATA reply, else the last reply, else the error, or an empty NXDOMAIN reply when no name was eligible |
| Resolution.SearchYieldsMessage | server/forwarding.go:186-254 | no step of a search comes back without message and error |
| ForwardPlan.PlanShape | server/forwarding.go:51-122 | at most one absolute and one suffixed lookup, absolute first exactly when the dots reach both thresholds |
| ForwardPlan.PlanIsRunInOrder | server/forwarding.go:55-122 | the lookups are the query or the search that the plan asks for, each on top of the log of the one before; NOERROR, an error or a run-time failure stops them, nothing else does |
| ForwardPlan.ConcludeExactly | server/forwarding.go:65-173 | which result is the reply and what it is charged to: a NOERROR message whole under the id of the request, the stale message, or what is made of the negative results |
| ForwardPlan.ForwardExactly | server/forwarding.go:19-174 | for every configuration and all results: a refused query gets REFUSED and sends nothing; a NOERROR message reaches the client with all sections and all of its header but the id; else the stale message, if there is one; else the negative results; no reply when a lookup fails at run time |
| ForwardPlan.ForwardFailsExactly | server/forwarding.go:79-92 | a call writes nothing if and only if it is not refused, makes a search (after a negative absolute lookup, if that comes first) and the search ends with a message without question section |
| ForwardPlan.FallbackExactly | server/forwarding.go:124-172 | without NOERROR and stale entry: the absolute reply whole under the id of the request, else an empty one with the rcode of the search, else SERVFAIL |
| ForwardPlan.AnswersComeFromUpstream | server/forwarding.go:60-118 | a NOERROR reply with answers that is not stale is what the last server asked replied, to the request as it is or to a search name behind the CNAME |
| ForwardPlan.ForwardEchoesId | server/forwarding.go:68-172 | every reply carries the id of the request |
| Forwarding.Forwarder.ForwardQuery | server/forwarding.go:257-304 | the loop computes the recursive specification and always has a message or an error |
| Forwarding.Forwarder.PickNameservers | server/forwarding.go:263-272 | the walk over the stub zones picks the specified list |
| Forwarding.Forwarder.ForwardSearch | server/forwarding.go:176-255 | the loop with its flags computes the recursive search, run-time failure included; the request itself is not changed |
| Forwarding.Forwarder.SearchLoop | server/forwarding.go:186-219 | the loop makes the steps of the search in order and its variables hold the last name, the last outcome and the last NODATA reply |
| Forwarding.Forwarder.ConcludeSearch | server/forwarding.go:221-254 | CNAME, NODATA preference and restored question add up to the specified reply, or to the failure of restoring it |
| Forwarding.Forwarder.LookUps | server/forwarding.go:55-122 | the three stages run the plan |
| Forwarding.Forwarder.FirstLookUp | server/forwarding.go:55-77 | the first stage runs the beginning of the plan |
| Forwarding.Forwarder.SearchLookUps | server/forwarding.go:79-122 | the second and third stage run the rest of the plan |
| Forwarding.Forwarder.ReplyNegative | server/forwarding.go:124-173 | stale entry, else absolute reply, else rcode of the search, else SERVFAIL; one counter is charged |
| Forwarding.Forwarder.ServeDNSForward | server/forwarding.go:16-174 | the specified reply is written and returned, or none if a search fails at run time; one counter is charged, and forwards stay the sum of NOERROR replies, stale hits, failures and run-time failures |
| Serving.RoundRobin | server/server.go:356-388 | a permutation, and the one the random stream gives; untouched with two CNAMEs; one to four swaps per record |
| Serving.EveryPlaceCanBeTaken | server/server.go:378-385 | three or more records: for every record and place some stream puts it there |
| Serving.Server.ServeHit | server/server.go:185-211 | the reply is the cached message cut to size, answers permuted only for address queries with the option on |
| Serving.Server.AddressRecords | server/server.go:311-334 | the loop turns the addresses found in the hosts file into records of the right family |
| Serving.Server.AnswerLocally | server/server.go:245-290 | which requests are answered locally and with what, before cutting |
| Serving.Server.FinishLocal | server/server.go:215-243 | SERVFAIL is written and not stored; everything else is cut, stored and written, or fails on TCP overflow |
| Serving.Server.ServeDNSReverse | server/forwarding.go:306-321 | PTR records of the hosts file, else the forwarder without stale entry |
| Serving.Server.ServeReverse | server/server.go:258-265 | every reply is stored |
| Serving.Server.ServeUpstream | server/server.go:292-307 | the second look supplies the stale entry, and reply, calls and messages sent are the specified ones |
| Serving.Server.Keep | server/server.go:298-307 | what is stored of the forwarder's reply, and when |
| Serving.Server.ServeDNS | server/server.go:131-309 | one request conforms to the full specification of reply, cache calls and upstream messages, writes that one reply (or none on a run-time failure) and keeps the invariant of the server; if all questions so far are proper, a reply taken from the cache repeats one written before to the same question |
| Serving.Server.CachePositive | server/server.go:298-307 | with rcache-non-negative every entry of a valid server's cache is NOERROR or under a key of the reverse zones |
| Requests.HostRecordsExactly | server/server.go:311-334 | the local answers are exactly the records, of the right type, class and TTL under the client's name, of the addresses of all exact entries for the name, or of all wildcards one label above it when there is no exact one |
| Requests.ExactHidesWildcards | hostsfile/utils.go:70-89 | exact entries without an address of the right family leave the query without local answer, whatever the wildcards say |
| Requests.RouteExactly | server/server.go:245-297 | which requests are answered from the hosts file, as reverse zones, in the CHAOS class or upstream, and the local answers before cutting |
| Requests.HitExactly | server/server.go:184-211 | a hit is answered with the cached message, in full while it is under the client's size, else cut, permuted only for address queries with the option on, or SERVFAIL on TCP; nothing is stored or sent |
| Requests.LocalExactly | server/server.go:215-243 | a local answer is cut for the client in the same way and stored unless the reply is SERVFAIL |
| Requests.ReverseExactly | server/forwarding.go:306-317 | a query for the reverse zones with PTR records is answered with exactly these, and the reply is stored |
| Requests.ForwardedExactly | server/server.go:258-297 | the reply to a forwarded request in every case: REFUSED, the NOERROR message with all its sections, the stale entry, or what is made of the negative results |
| Requests.RepliesComeFromUpstream | server/server.go:292-297 | a NOERROR reply with answers that is not stale is what the last server asked replied, as it is or behind the CNAME |
| Requests.StoredExactly | server/server.go:215-307 | when something is stored, as an if and only if on every route |
| Requests.RequestStoresPositive | server/server.go:298-307 | with rcache-non-negative only NOERROR is stored outside the reverse zones |
| Requests.NegativeStoredExactly | server/server.go:258-265 | with rcache-non-negative a negative reply is stored if and only if the query missed the cache, is for the reverse zones, has no PTR record, and the forwarder replies negatively |
| Requests.NegativeStoredExample | server/server.go:258-265 | with recursion off the refusal of a PTR query is stored |
| Requests.StoredIsWritten | server/server.go:237-306 | at most one insertion, last of at most three cache calls, of exactly the message written |
| Requests.ReplyEchoesId | server/server.go:133-309 | every reply carries the id of the request |
| Requests.NoReplyExactly | server/server.go:258-297 | a request gets no reply if and only if it is forwarded and the search breaks on a message without question section; then nothing is stored |
| Requests.UpstreamIsTheLastResort | server/server.go:184-297 | something is sent upstream only after a miss, without a local answer and when the query is not refused; a cache hit stores nothing |
| Requests.StaleReplyKeepsDeadlines | server/server.go:296-307 | a request served from a stale entry moves no deadline and adds no entry |
| Requests.StaleServedExactly | server/server.go:292-307 | an expired entry, however old, is the reply, whole, if and only if rstale-ttl is above 0, the query is not refused and no lookup brings NOERROR or fails at run time; it is not stored again |
| Requests.RequestRenewsExactly | server/server.go:293-307 | when a stored answer renews an expired entry, as an if and only if |
| Requests.LooksMeetExactly | server/server.go:150-185 | two requests with proper questions look under one key if and only if name, type, DO bit and transport agree |
| Requests.DnssecSeparates | server/server.go:150-152 | requests that differ in the DO bit alone never look under one key |
| Requests.CachedReplyIsRepeated | server/server.go:184-297 | over every history of proper questions a reply taken from the cache, stale ones included, is the reply written to an earlier request whose message has the same name, type and DO bit and came over the same transport: all of it under the new id, or cut for the client |
| Hosts.HalveShrinks | hostsfile/utils.go:133-135 | the collapse loop terminates: a text with two neighbouring blanks gets shorter |
| Hosts.CollapseKeepsFields | hostsfile/utils.go:131-135 | collapsing keeps the words and leaves no two neighbouring blanks |
| Hosts.RunIsOneWord | hostsfile/utils.go:139-147 | a maximal run of non-blank characters is one word |
| Hosts.WordsAreFields | hostsfile/utils.go:128-147 | replace, collapse, trim and split yield exactly the maximal runs |
| Hosts.SplitWords | hostsfile/utils.go:128-143 | the loops compute the words before the comment |
| Hosts.ParsedFromFields | hostsfile/utils.go:116-183 | what a line yields, in terms of its maximal runs: the address with each name in lower case, `*.` taken off wildcards; a host name of one character is the only failure |
| Hosts.HostnamesExactly | hostsfile/utils.go:171-182 | the entries of an address: one for each word, in order |
| Hosts.ReadNames | hostsfile/utils.go:171-182 | the names of a line in order, wildcards recognised, or the slice error |
| Hosts.ParseLine | hostsfile/utils.go:112-183 | the whole line, skipped lines included |
| Hosts.ReadingFailsExactly | hostsfile/utils.go:172-174 | reading fails if and only if some line that is not skipped has a host name of fewer than two characters |
| Hosts.ShortNameExample | hostsfile/utils.go:172-174 | the loopback address under a name of one character fails |
| Hosts.Add | hostsfile/utils.go:94-103 | an entry equal to one in the list is not added |
| Hosts.NewHostlistString | hostsfile/utils.go:33-44 | the loops compute the first occurrences of all entries |
| Hosts.ListIsFirstOccurrences | hostsfile/utils.go:33-44 | no two equal entries, text order, first occurrences, nothing lost |
| Hosts.WildcardSlices | hostsfile/utils.go:79-86 | the slices stay in bounds and test that the domain is the name without its first label |
| Hosts.WildcardExample | hostsfile/utils.go:79-86 | a wildcard answers one label below its domain and not two |
| Hosts.FindHosts | hostsfile/utils.go:68-92 | addresses of all exact matches in file order, else of all wildcard matches |
| Hosts.FindQueriedHosts | hostsfile/hostsfile.go:69-75 | the same for a query name without its final dot |
| Hosts.FoundExactly | hostsfile/utils.go:68-92 | an address is found if and only if it is that of an entry with this very name or, when there is none, of a wildcard whose domain is the name without its first label |
| Hosts.DuplicatesDoNotMatter | hostsfile/utils.go:68-103 | dropping duplicates loses no address, and no address is found twice |
| ResolvConf.File.WriteString | resolvconf/resolvconf.go:57-79 | overwrites at the offset and keeps what lies beyond |
| ResolvConf.UpdateResolvConf | resolvconf/resolvconf.go:39-88 | rewriting in place and truncating leaves exactly the rewritten text |
| ResolvConf.WriteLines | resolvconf/resolvconf.go:61-80 | every line is rewritten in turn |
| ResolvConf.StoreAddress | resolvconf/resolvconf.go:26-30 | the file becomes the registration followed by the commented lines |
| ResolvConf.CleanFile | resolvconf/resolvconf.go:32-37 | the file becomes the cleaned text |
| ResolvConf.EachLineComposes | resolvconf/resolvconf.go:51-80 | dropping lines and then rewriting the others is one pass over the lines |
| ResolvConf.CommentKeepsAdded | resolvconf/resolvconf.go:70-74 | commenting a nameserver line out neither makes nor hides an ADD marker |
| ResolvConf.CommentHidesNameserver | resolvconf/resolvconf.go:70-74 | a commented line is not commented again |
| ResolvConf.RoundTripFixesPristine | resolvconf/resolvconf.go:61-75 | store then clean fixes a line if and only if it is pristine, and lengthens none |
| ResolvConf.CleanUndoesStoreExactly | resolvconf/resolvconf.go:24-80 | cleaning after storing restores the file byte for byte if and only if every line is pristine |
| ResolvConf.IndentedExample | resolvconf/resolvconf.go:61-75 | a nameserver line behind a blank is not restored |
| ResolvConf.StoreReplacesStore | resolvconf/resolvconf.go:26-80 | storing a second address equals storing it alone, for any file |
| ResolvConf.OnlyNameserver | resolvconf/resolvconf.go:26-75 | after storing, the file begins with a nameserver line for the address and no other line is a nameserver line |
| ResolvConf.StoreLineExactly | resolvconf/resolvconf.go:51-75 | storing drops the lines it added before, puts the marker in front of nameserver lines and keeps every other line |
| ResolvConf.CleanFixesUnmarked | resolvconf/resolvconf.go:32-75 | cleaning leaves a file alone if and only if no line carries a marker |
| ResolvConf.OnlyLastCallCounts | main.go:285-361 | after any sequence of calls a pristine file is itself, or registered with the last address |
| ResolvConf.RestoredExactlyWhenPristine | main.go:351-361 | a final clean restores the file after every history if and only if the file is pristine |

## Left out

- Sockets, wire encoding and `dns.Client.Exchange`: an arbitrary function of the messages sent so far.
- Message lengths (`Msg.Len`), label counts, EDNS0 options, the family of an address (`To4`), the records of PTR lookups, and `net.ParseIP` with its address classes: arbitrary functions.
- The hosts file of a running server: a fixed list during one request; reading it is modelled apart.
- What becomes of the process after a run-time failure in a handler: the model ends the request without a reply.
- Requests without a question: `ServeDNS` indexes the question section and relies on the DNS library to reject them.
- Empty nameserver lists of stub zones: main.go never builds one.
- The random order of Go map walks: a chosen victim for evictions, a given order for stub zones.
- Interleavings of calls: every call on the cache is one step, although `Hit` takes the lock several times.
- Identity of upstream replies as objects: they are values; pointers are modelled for requests, cached messages and messages being cut.
- Wrap-around of the unsigned hit counters, and the saturation of `time.Since` over centuries.
- Strings outside ASCII: lower-casing and trimming follow ASCII, and strings are sequences of bytes.
- The regular expression of the resolv.conf rewriter: modelled as dropping each line whose text ends with the ADD marker; I/O errors and partial writes.
- Hosts-file polling, CLI parsing, logging, metrics other than the three counters of the conservation claim, the HTTP control server, `DumpCache`, `KeyRRset` and `FindReverse`: input, output or formatting.
- AtMostOneAnswerPastStale: counts a hit as past the deadline by the reading that decides the removal, the second of the call.
