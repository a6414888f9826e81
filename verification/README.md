# Machine-checked models of parts of Go's net, net/http, net/url and net/netip

This project models, in Dafny 4.11, the hardest logic of six components of the
repository, and proves properties of the models for all inputs, all runs or all
reachable states:

* **The HTTP/1 connection pool** of `http/transport.go`. Its lock-protected
  sections are functions on a pool value (`PoolState`). A run is any interleaving
  of the sections of any number of goroutines (`PoolRun`); one invariant holds in
  every reachable pool. `TransportClass.Transport` has the same sections as
  methods that update the fields, with the loops of the source, each proved equal
  to its function. `WantConnQueueClass.WantConnQueue` is the two-stage queue over
  two arrays.
* **IP addresses**, `netip/netip.go`: printing with the "::" of section 4.2 of
  RFC 5952, parsing with ellipsis, embedded IPv4 and zones, and that parsing
  undoes printing for every address.
* **ServeMux routing**, `http/routing_tree.go`, `http/pattern.go` and
  `http/mapping.go`: the backtracking search agrees with a scan of all patterns,
  for exactly the paths and exactly the sets of patterns that the tree's special
  keys do no harm to. A nil dereference is an outcome of the search.
* **URLs**, `url/url.go`: percent-encoding with its fast paths, the query codec,
  user information and hosts, `resolvePath` against section 5.2.4 of RFC 3986,
  and `ResolveReference`.
* **HTTP/1.1 framing**, `http/internal/chunked.go`, `http/transfer.go`,
  `http/header.go` and `http/server.go`: the chunk codec as a resumable reader,
  message bodies, how the server delimits its replies and how the repository's own
  client reads them, and the one-byte background reader. A reply is a value, a run
  any order of what a handler may do to it (`ResponseFraming`, `ResponseDecision`);
  `ResponseClass.Response` updates the same fields in place, each method proved
  equal to its function.
* **The dial race** of `dial.go`.

Goroutines, `wantConn`s and connections of the pool are entries of sequences and
are named by their index. Every section under a mutex is one step; what happens
outside a mutex is the order of the steps. With `IdleConnTimeout` set a timer may
fire at any time. Clock
readings, contexts, the size of what one socket read brings, and how much a
buffered reader holds are left open, so every statement holds for all of them.
`bufio.Reader` is a class that keeps only what its users can observe.

## Where the code does not do what it says

* `dialConnFor` returns at `http/transport.go:1240-1242` without giving its dial
  permit back, although the comment at lines 1234-1236 says that it does. The
  count of a host therefore includes abandoned permits (`PoolTheorems.CountsAreExact`).
  A permit is abandoned exactly when its goroutine starts after the `wantConn` got
  its result, whether that was a cancellation or a connection delivered from
  elsewhere (`PoolDead.AbandonedExactly`), and a host is out of reach for good
  exactly when all its permits are abandoned or about to be
  (`PoolDead.HostIsDeadExactly`). One early cancellation is enough when the limit is
  one (`PoolDead.OneCancelKillsForGood`).
* `CloseIdleConnections` (lines 586-598) forgets the LRU while a connection that
  `queueForIdleConn` found too old (820-834) still waits for
  `closeConnIfStillIdle` (1760-1770), which then finds it in no list. The
  connection stays open and counts against its host. It is the only way to leak
  one (`PoolLeak.LeakedExactlyWhenOvertaken`), and it needs `IdleConnTimeout` to be
  set (`PoolLeak.LeakNeedsTimeout`).
* The routing tree uses the keys "", "*" and "/" for wildcards and `{$}`. A
  request path whose decoded segments collide with them is matched wrongly for
  some pattern: `RoutingReserved.MatchedRightExactly` gives the exact set of paths.
* Patterns collide with these keys as well. A literal "" or a last literal "*"
  acts as a wildcard; a literal "*" further up makes a node without a pattern, on
  which `matchPath` dereferences nil (`RoutingHarm.StarInTheMiddleCrashes`); a
  literal "/" that is not last does no harm. `RoutingHarm.MatchedRightExactly`
  gives exactly the sets of patterns that are matched right on all other paths, and
  `RoutingHarm.OnePatternExactly` the single patterns. The condition is on the
  set: another pattern may take every path that would lead to a harmful one
  (`RoutingHarm.MultiMakesStarHarmless`).
* A raw non-ASCII zone in a host parses, but the form `URL.String` writes for it
  does not: `UrlAuthority.HostRoundTripExactly`, `UrlAuthority.RawZoneIsLost`.
* `resolvePath` gives `/a` for `/..//a`, where RFC 3986 gives `//a`:
  `UrlRfc3986.AgreesExactly` says when the two agree.
* `setPath("%2A")` makes `EscapedPath` return `*`:
  `UrlReference.SetPathRoundTripExactly`.
* The byte a connection reader holds from its background read is not counted
  against the read limit, which the server sets for the next request while that
  byte is held (`http/server.go:895`): the limit is kept exactly when no such byte
  is there or on its way (`ConnReader.LimitKeptExactly`), and one byte more than the
  limit gets through otherwise (`ConnReader.OneByteAboveLimit`).
* The server decides on the first value of a header in one spelling of its key
  (`http/header.go:51-56`), and writes all values of all spellings (162-180). Two
  different lengths, a length with a sign, a key "content-length" or an encoding
  "Chunked" go out beside what the server decided, and the connection is reused after
  a reply that the repository's own client refuses
  (`ResponseFraming.TwoLengthsMislead` and the three lemmas behind it).
  `ResponseFraming.SelfDelimitingExactly` says exactly for which headers the reply can
  be delimited, and `ResponseDecision.DelimitedExactlyWhenClear` says it of what the
  server has in hand when it decides on the head: the handler's headers, the status,
  the first piece of the body, and whether the handler is done.
* `newTransferWriter` takes the body of a response to HEAD away but leaves it chunked
  (`http/transfer.go:123-127`), and `writeBody` then still writes the trailer and a
  CRLF (334-343) behind the head of a message without a body. The next message begins
  behind them: `MessageBody.BodilessIsEmptyExactly`,
  `MessageBody.ChunkedReplyToHEADLeavesALine`.
* The overhead accounting of `beginChunk` overflows for chunks above 2^62 + 2
  bytes: `Chunked.ExcessStaysZeroExactly`.

## Model

| member | source | states |
|---|---|---|
| PoolRun.RunKeeps | http/transport.go:698-909 | In every interleaving of all sections the pool invariant holds: ownership of every connection and want, list and LRU order, caps, exact counts, and no panic or log.Fatalf is reached |
| PoolRun.StepKeeps | http/transport.go:1122-1305 | Any one section of any goroutine keeps the invariant, whatever the state |
| PoolHandOver.TryPutIdleKeeps | http/transport.go:698-780 | Returning a connection to the pool, with hand-over to a waiting request, refusal, pooling and eviction, keeps the invariant |
| PoolHandOver.QueueForIdleKeeps | http/transport.go:785-869 | Asking for an idle connection, with dropped broken and too old ones and delivery of the newest usable one, keeps the invariant |
| PoolHandOver.CancelKeeps | http/transport.go:1024-1038 | A cancelled request ends once and its connection passes to the goroutine that puts it back |
| PoolHandOver.EvictKeeps | http/transport.go:762-765 | Closing the oldest connection over the global cap restores the cap and keeps lists, owners and counts right |
| PoolHandOver.CloseIfStillIdleKeeps | http/transport.go:1760-1770 | The idle timer closes a connection only while it is pooled, and keeps the invariant |
| PoolSections.RemoveIdleKeeps | http/transport.go:879-909 | Removing a connection from its list and the LRU leaves every other connection where it was |
| PoolSections.CloseConnKeeps | http/transport.go:2446-2464 | Closing a connection gives back its host count once, however often it is closed |
| PoolTheorems.AtMostOnePlace | http/transport.go:698-909 | No connection, open or closed, is ever in two places: two requests, a request and the pool, or two goroutines |
| PoolTheorems.OpenIsHeldOrLeaked | http/transport.go:1237-1255 | Every open connection is in exactly one place, unless it is leaked |
| PoolTheorems.NoSharing | http/transport.go:1004-1020 | No connection is delivered to two requests, and a request only gets one of its own key |
| PoolTheorems.CancelReturnsOnce | http/transport.go:1024-1038 | A connection delivered and then cancelled is put back by exactly one goroutine |
| PoolTheorems.NobodyWaitsBesideIdle | http/transport.go:717-760 | No request waits while a pooled connection for its key sits idle |
| PoolTheorems.PooledOnce | http/transport.go:741-780 | Pooled connections occur once, under their own key and in the LRU, within both idle caps; LRU entries missing from the lists are only broken or too old ones |
| PoolTheorems.ListsFollowLRU | http/transport.go:2609-2646 | Each idle list is in LRU order |
| PoolTheorems.CountsAreExact | http/transport.go:1206-1305 | A host's count is its dial permits in use plus open connections plus abandoned permits, never above the limit, and at the limit while a request waits for a permit |
| PoolHistory.DeliveredOnce | http/transport.go:1004-1020 | A wantConn accepts at most one result over any run |
| PoolDead.AbandonedExactly | http/transport.go:1237-1242 | In any run a permit is abandoned iff its goroutine began when its wantConn was already settled, delivered to or cancelled |
| PoolDead.HostIsDeadExactly | http/transport.go:1206-1305 | No continuation of a run opens a connection to a host iff every permit of the host is abandoned, or held by a goroutine that has not begun and whose wantConn is settled |
| PoolDead.ReachableUnlessDoomed | http/transport.go:1259-1305 | Otherwise a continuation that opens one: a waiting dial, a failed one, a broken connection or a new request leads to it |
| PoolDead.OneCancelKillsForGood | http/transport.go:1234-1242 | A run in which one cancellation makes a host unreachable in every continuation, while a request for it waits |
| PoolHistory.OneCancelCanKillAKey | http/transport.go:1234-1242 | The run: one request cancelled before its dial goroutine began, and the next one waiting for a permit |
| PoolHistory.CloseIdleLeaks | http/transport.go:586-598 | CloseIdleConnections leaks exactly the connections whose closer is still pending |
| PoolLeak.LeakedExactlyWhenOvertaken | http/transport.go:586-598 | In any run a connection is leaked iff a CloseIdleConnections overtook its closer and it was not closed since |
| PoolLeak.StepLeaks | http/transport.go:820-834 | No other section leaks a connection |
| PoolLeak.LeakNeedsTimeout | http/transport.go:802-808 | Without IdleConnTimeout no run leaks a connection |
| PoolLeak.CloseIdleCanLeak | http/transport.go:1760-1770 | A run that leaks a connection, which its own closer then does not close |
| PoolWaiting.NobodyIsForgotten | http/transport.go:1206-1231 | In every run a request that waits without a result has a dial of its own under way or stands in the permit queue of its host; with keep-alives on, it also stands in the queue for idle connections of its host |
| PoolWaiting.StepRemembers | http/transport.go:861-869 | Every single section keeps that for every request |
| TransportClass.Transport.TryDeliver | http/transport.go:1004-1020 | The method and its function agree on the whole state; at most the first result is accepted |
| TransportClass.Transport.TryDeliverError | http/transport.go:1004-1020 | The same for an error |
| TransportClass.Transport.Cancel | http/transport.go:1024-1038 | The whole new state, and the connection that is to be put back |
| TransportClass.Transport.DecConnsPerHost | http/transport.go:1259-1305 | The loop hands the permit to the first request still waiting, or lowers the count; the underflow panic is reported as a fault |
| TransportClass.Transport.CleanFront | http/transport.go:1095-1104 | The loop drops exactly the maximal prefix of entries that no longer wait |
| TransportClass.Transport.QueueForDial | http/transport.go:1206-1231 | The whole new state in all three cases: no limit, a free permit, a wait |
| TransportClass.Transport.CloseLocked | http/transport.go:2446-2464 | The first close marks the connection and gives back its count; a second changes nothing |
| TransportClass.Transport.RemoveIdleConnLocked | http/transport.go:879-909 | The whole new state; exactly one entry leaves list and LRU |
| TransportClass.Transport.TryPutIdleConn | http/transport.go:698-780 | The whole new state, for delivery, refusal, pooling and eviction |
| TransportClass.Transport.AddIdle | http/transport.go:750-780 | The whole new state when no request waits: appended to the list and the LRU, with the oldest evicted over the cap |
| TransportClass.Transport.ServeWaiter | http/transport.go:717-740 | The pop loop stops at the first request that still waits and leaves the rest of the queue |
| TransportClass.Transport.QueueForIdleConn | http/transport.go:785-869 | The whole new state, with the dropped connections and the newest usable one |
| TransportClass.Transport.DropUnusable | http/transport.go:811-836 | The loop from the end of the list drops exactly the maximal suffix of broken and too old connections |
| TransportClass.Transport.CloseConnIfStillIdle | http/transport.go:1760-1770 | The whole new state |
| TransportClass.Transport.CloseIdleConnections | http/transport.go:586-598 | The whole new state: lists and LRU empty, one pending close per listed connection |
| WantConnQueueClass.WantConnQueue.PushBack | http/transport.go:1063-1065 | The queue, read as head[headPos:] ++ tail, gets one element at its end |
| WantConnQueueClass.WantConnQueue.PopFront | http/transport.go:1068-1080 | It loses its first element, also when the spent head array becomes the new tail, and nothing live is overwritten |
| WantConnQueueClass.WantConnQueue.PeekFront | http/transport.go:1083-1091 | The first element, or none |
| WantConnQueueClass.WantConnQueue.CleanFront | http/transport.go:1095-1104 | Exactly the maximal prefix of entries that no longer wait is removed |
| WantConnQueueClass.WantConnQueue.Len | http/transport.go:1058-1060 | The length of the queue |
| IpAddr.BePutUint64 | netip/leaf_alts.go:16-26 | The eight bytes written are those whose big-endian value is v, and no other byte changes |
| IpAddr.As16 | netip/netip.go:386-390 | The sixteen bytes from which AddrFrom16 makes the address again |
| IpAddr.WordsMakeAddr | netip/netip.go:84-92 | Packing the bytes of the eight groups v6u16 gives back the address |
| IpPrint.LongestRunIsUnique | netip/netip.go:494-504 | The first longest run of at least two zero groups is unique |
| IpPrint.FindZeros | netip/netip.go:494-504 | The loop finds that run, or that there is none |
| IpPrint.WriteGroups | netip/netip.go:506-519 | The loop writes the groups with "::" for exactly that run |
| IpPrint.String | netip/netip.go:404-420 | The text in all five forms |
| IpParse.ParseIPv4Fields | netip/netip.go:127-165 | The loop computes the recursive reading of dotted decimal, errors included, and writes only its four bytes |
| IpParse.ScanHex | netip/netip.go:211-232 | The accumulator loop reads one hexadecimal group or overflows |
| IpParse.ParseGroup | netip/netip.go:208-289 | One turn of the group loop, on the array, does what the recursive reading does |
| IpParse.ExpandInPlace | netip/netip.go:302-308 | The two downward loops move the bytes behind the ellipsis to the end and fill the gap with zeros |
| IpParse.Parse16Into | netip/netip.go:193-314 | The body of parseIPv6 computes the recursive reading, errors included |
| IpParse.ParseAddrInto | netip/netip.go:97-112 | The first '.', ':' or '%' decides the form |
| IpRoundTrip.GroupsAreRead | netip/netip.go:208-289 | The printed groups are read back, from any position in the address |
| IpRoundTrip.EllipsisIsRead | netip/netip.go:276-289 | Groups around "::" are read back with the place of the ellipsis |
| IpRoundTrip.ShortenedIsRead | netip/netip.go:494-525 | The shortened form reads as the sixteen bytes of the address, wherever the run of zeros is |
| IpRoundTrip.MappedIsRead | netip/netip.go:411-417 | "::ffff:" and a dotted address read as the IPv4-mapped bytes |
| IpRoundTrip.StringIsParsed | netip/netip.go:404-420 | For every valid address, IPv4, IPv6, IPv4-mapped, with any zone, ParseAddr of its String is that address |
| IpRoundTrip.ParsedIsStable | netip/netip.go:97-112 | Everything ParseAddr accepts is valid, and printing and parsing it again changes nothing |
| MappingClass.Mapping.Add | http/mapping.go:25-38 | The dictionary gets the pair, also when the slice migrates into a map |
| MappingClass.Mapping.Find | http/mapping.go:43-57 | The value of the key in either representation |
| RoutingPrecedence.AddPatternAt | http/routing_tree.go:40-78 | Registration changes the tree at the pattern's own keys only, and panics exactly when that place is taken |
| RoutingPrecedence.SearchAgrees | http/routing_tree.go:146-190 | Below any node, the backtracking search finds the first fitting pattern in the order literal, single, multi, with its bindings |
| RoutingPrecedence.LiteralIsBest | http/routing_tree.go:163-170 | What fits below the literal child precedes everything else that fits |
| RoutingPrecedence.SingleIsBest | http/routing_tree.go:171-180 | What fits below the single wildcard comes first when nothing fits below the literal child |
| RoutingMux.RegisterBuilds | http/server.go:2509-2553 | Registering patterns without a panic builds the tree of exactly these patterns |
| RoutingMux.TierIsSearched | http/routing_tree.go:124-140 | The search below one host and one method finds the first of its patterns that match |
| RoutingMux.MatchFindsFirst | http/routing_tree.go:109-140 | For every accepted set of patterns to which the special keys do no harm, in particular of well-formed ones, and every request with an unreserved path, match returns the first matching pattern by host, method and precedence with its bindings, iff any matches |
| RoutingMux.FirstIsUnique | http/routing_tree.go:163-190 | Two registered patterns that match a request never come first of each other |
| RoutingReserved.MatchedRightExactly | http/routing_tree.go:31-37 | A path is matched right against every set of well-formed patterns iff no decoded segment is "" or "/" and the last is not "*" |
| RoutingReserved.ReservedIsMismatched | http/routing_tree.go:146-190 | A well-formed pattern that loses its match or a binding on any given path with a reserved segment |
| RoutingMux.WellFormedIsHarmless | http/routing_tree.go:31-37 | In a tree of well-formed patterns the special keys do no harm |
| RoutingHarm.MatchedRightExactly | http/routing_tree.go:146-190 | An accepted set of patterns is matched right, without a crash, on every path without reserved segments iff every node a path can lead to is fine: no pattern with a misread literal stands where it would be found, and no "*" child without a pattern is reached |
| RoutingHarm.OnePatternExactly | http/routing_tree.go:53-71 | A pattern alone is matched right on all those paths iff it has no literal "*" in front of a "/" that is not last, and, without such a "/", no literal "" and no literal "*" |
| RoutingHarm.HarmfulGoesWrong | http/routing_tree.go:163-187 | Below any node that is not fine there is a path on which the search crashes or finds a pattern with a misread literal |
| RoutingHarm.StarInTheMiddleCrashes | http/routing_tree.go:181-187 | The pattern with "*" in front of "b", as parsePattern reads it, makes match dereference nil for every path with another first segment |
| RoutingHarm.StarPatternMatchesAll | http/routing_tree.go:61-71 | A last literal "*" acts as a multi wildcard |
| RoutingHarm.MultiMakesStarHarmless | http/routing_tree.go:181-187 | A multi wildcard in the same place makes the crashing pattern harmless |
| RoutingAnswers.ExactMatchExactly | http/server.go:2439-2462 | Counting slashes decides exactly whether the multi wildcard is absent or matched the empty remainder |
| RoutingAnswers.ReportedExactly | http/routing_tree.go:211-234 | When no pattern without a method matches and no search crashes, the reported methods are exactly those for which match succeeds |
| RoutingAnswers.ReportedByPatterns | http/server.go:2465-2478 | The same in terms of the registered patterns, for which it never crashes |
| RoutingParse.ParseSegmentsInto | http/pattern.go:125-181 | The loop over the pattern's path computes the recursive reading, errors included |
| RoutingParse.ParsedPatternFitsTree | http/pattern.go:84-181 | Every parsed pattern has segments, a multi wildcard only at the end, and distinct names, so the panic of addSegments cannot happen |
| RoutingParse.LiteralPatternMatchesItself | http/pattern.go:140-145 | A pattern path without braces matches itself as a request path and binds nothing |
| ServeMuxClass.Append | http/routing_tree.go:171-173 | append in place or into a copy: the values, and that shorter slices of the same array keep theirs |
| ServeMuxClass.MatchPath | http/routing_tree.go:146-190 | Although all branches append into one array, the values returned are those of the search on values, and it crashes exactly when that does |
| ServeMuxClass.ServeMux.Register | http/server.go:2546-2552 | The tree holds exactly the registered patterns; a pattern is refused iff one with the same keys is there |
| ServeMuxClass.ServeMux.Match | http/routing_tree.go:109-140 | The pattern and values of the search by host and method, or its crash |
| ServeMuxClass.ServeMux.MatchingMethods | http/routing_tree.go:211-234 | The loops over the children add exactly the methods that match, in any order of the children, and crash exactly when one of the searches does |
| UrlEscape.EscapeInto | url/url.go:285-339 | The two fast paths and the general path agree with escaping byte by byte, and the buffer is filled exactly |
| UrlEscape.UnescapeInto | url/url.go:200-271 | The validating pass, the fast path and the decoding pass agree with the recursive decoding, errors included |
| UrlEscape.RoundTripExactly | url/url.go:200-339 | unescape undoes escape in a mode iff every byte survives it; for paths, segments, user information, queries and fragments that is every string |
| UrlEscape.UnescapeConcat | url/url.go:200-271 | Well-formed text is checked and decoded piece by piece |
| UrlQuery.ParseQuery | url/url.go:939-968 | The loop over the pieces computes the recursive reading and the error it reports |
| UrlQuery.Encode | url/url.go:972-995 | The loops write the pairs in key order |
| UrlQuery.EncodeThenParse | url/url.go:933-995 | ParseQuery of Encode gives the non-empty lists without an error, and so the map itself iff it has no empty list |
| UrlQuery.SortedKeysExist | url/url.go:977-981 | Every map has sorted keys, so the results about Encode speak of all maps |
| UrlQuery.SortedKeysAreUnique | url/url.go:977-981 | The sorted keys of a map are unique, so Encode does not depend on map order |
| UrlAuthority.UserRoundTrip | url/url.go:427-438 | Parsing what Userinfo.String wrote gives the user and password back, for all bytes |
| UrlAuthority.AuthorityRoundTrip | url/url.go:586-619 | parseAuthority splits at the written user information and parses the host as it is |
| UrlAuthority.HostRoundTripExactly | url/url.go:623-667 | A parsed host, written by String, parses to itself iff its zone holds no raw non-ASCII byte |
| UrlAuthority.RawZoneIsLost | url/url.go:630-650 | Every non-ASCII byte gives such a host: it parses, and what String writes for it is an error |
| UrlAuthority.HostHasNoAt | url/url.go:623-667 | A host that parses holds no '@' |
| UrlAuthority.WrittenAuthorityIsRead | url/url.go:830-843 | The whole authority that String writes parses to the same user and host, on the same condition |
| UrlPath.ResolvePathInto | url/url.go:999-1061 | The builder loop computes the walk over segments |
| UrlPath.WriteSegments | url/url.go:1020-1049 | The loop of Cut and builder keeps the written segments |
| UrlPath.ResultHasNoDots | url/url.go:999-1061 | The result is empty or starts with a slash, and has no dot segment |
| UrlPath.ResultIsFixed | url/url.go:999-1061 | Resolving a resolved path changes nothing |
| UrlRfc3986.ResolveIsRfc | url/url.go:997-1061 | resolvePath is the algorithm of section 5.2.4 of RFC 3986, except that it drops one of two leading slashes once the root was left |
| UrlRfc3986.AgreesExactly | url/url.go:997-1061 | The two agree iff the path never leaves the root for good or the RFC's result has one leading slash |
| UrlRfc3986.DifferOnce | url/url.go:1055-1060 | A family of paths on which they differ |
| UrlReference.SetPathRoundTripExactly | url/url.go:680-713 | EscapedPath gives back what setPath was given iff that is a valid encoding other than "%2A" |
| UrlReference.ResolveIsFine | url/url.go:999-1061 | Well-formed paths resolve to a well-formed path |
| UrlReference.ResolvedExactly | url/url.go:1086-1116 | The ignored setPath errors never occur, and the answer's EscapedPath is exactly what resolvePath computed, without dot segments and stable |
| UrlReference.URL.SetPath | url/url.go:680-693 | Path and RawPath, or an error and nothing changed |
| UrlReference.URL.ResolveReference | url/url.go:1086-1116 | Every field of the answer, for remote, opaque and relative references |
| Chunked.WrittenIsRead | http/internal/chunked.go:225-254 | The text of any sequence of writes and the close means exactly the data, then io.EOF, and ends where the last chunk ends |
| Chunked.ReadInPieces | http/internal/chunked.go:97-149 | A chunk's data may be read in any number of pieces |
| Chunked.HexIsRead | http/internal/chunked.go:265-287 | parseHexUint reads what %x writes |
| Chunked.ExcessStaysZeroExactly | http/internal/chunked.go:76-80 | A written chunk header adds no excess iff the chunk is at most 2^62 + 2 bytes |
| Chunked.OverheadIsBounded | http/internal/chunked.go:61-83 | For accepted chunks of any sizes the overhead is at most 16·1024 + 16 a chunk + twice the data |
| Chunked.ChunkedWriter.Write | http/internal/chunked.go:225-249 | One chunk is appended to the wire, and none for empty data; when a write of the wire fails, a beginning of the chunk is there |
| Chunked.ChunkedWriter.Close | http/internal/chunked.go:251-254 | The last chunk is appended, or a beginning of it when the wire fails |
| ChunkedReaderClass.ChunkedReader.BeginChunk | http/internal/chunked.go:46-86 | Reading a header changes nothing of what is left to read; it succeeds with a non-empty chunk or ends with the right error |
| ChunkedReaderClass.ChunkedReader.ParseHexUint | http/internal/chunked.go:265-287 | The accumulator loop, with its three errors |
| ChunkedReaderClass.ChunkedReader.TrimTrailingWhitespace | http/internal/chunked.go:173-178 | The loop trims exactly the trailing white space |
| ChunkedReaderClass.ChunkedReader.ReadData | http/internal/chunked.go:126-146 | The bytes read are the next ones of the meaning, however many one read brings |
| ChunkedReaderClass.ChunkedReader.Read | http/internal/chunked.go:97-149 | For every buffer size and buffering schedule the bytes read and what is left are what was left before; with room it returns data or an error |
| MessageBody.Body.ReadLockedChunked | http/transfer.go:835-880 | A chunked body ends with io.EOF exactly behind the final CRLF when there is no trailer, and closes itself when the trailer is broken |
| MessageBody.Body.ReadLockedLimited | http/transfer.go:835-880 | A body with a length ends with io.EOF after exactly that many bytes, and with io.ErrUnexpectedEOF when the stream is shorter |
| MessageBody.Body.ReadTrailer | http/transfer.go:905-944 | Without a trailer exactly two bytes are taken; with one, the buffer must show CRLF CRLF, and unless the trailer is malformed exactly its lines are taken, up to its first blank one |
| MessageBody.ReadHeaderLines | textproto/reader.go:517-521 | The loop takes lines up to the first blank one and nothing behind it, or finds one malformed |
| MessageBody.HeaderEndsInSight | http/transfer.go:888-901 | Once the buffer shows CRLF CRLF, the first blank line is there or before: reading the trailer cannot run past what was seen |
| MessageBody.Body.SeeUpcomingDoubleCRLF | http/transfer.go:888-901 | The peeking loop finds the first CRLF CRLF that the buffer can hold, or none |
| MessageBody.CopyBody | http/transfer.go:295-321 | The bytes of the body up to the announced length are written, or a beginning of them when the wire fails |
| MessageBody.CopyChunked | http/transfer.go:296-305 | A chunk per piece and the last chunk are written, or a beginning of that text |
| MessageBody.NewTransferWriter | http/transfer.go:122-144 | A message ends up without a body iff it had none or answers HEAD, and a chunked one has no length |
| MessageBody.WriteBody | http/transfer.go:276-345 | With and without a body, in all forms: on success exactly the text of the message is on the wire; on failure a beginning of the text is; and it fails exactly when a write fails, the body cannot be read or closed, or has another length than announced |
| MessageBody.BodilessIsEmptyExactly | http/transfer.go:122-144 | Behind the head of a message without a body the next message begins at the next byte iff the message is not a chunked response to HEAD |
| MessageBody.ChunkedReplyToHEADLeavesALine | http/transfer.go:334-343 | The failing side: an empty line is left in front of the next message |
| MessageBody.Transfer | http/transfer.go:276-345 | From writer to reader, unless writing failed: whatever the pieces, buffers and schedule, a chunked body arrives unchanged and the next message starts at the next byte |
| MessageBody.TransferLimited | http/transfer.go:835-880 | The same for a body with a Content-Length; writing fails for every other length |
| HeaderFields.WrittenIsNamed | http/header.go:162-180 | A client finds the values of all spellings of a key, cleaned, and not only the first of one |
| HeaderFields.DeletedSpellings | http/header.go:69-71 | Del takes away one spelling and leaves the others |
| ResponseFraming.RunKeeps | http/server.go:968-1402 | After any order of header changes, writes, spills and flushes: what the head says is what the headers and the decisions made of it, the body has the form decided on, and every accepted byte is accounted for |
| ResponseFraming.FixedOnce | http/server.go:1046-1076 | What the first WriteHeader fixed, and what the head on the wire says, no later event changes |
| ResponseFraming.FinishSendsAll | http/server.go:1531-1540 | A finished reply has all accepted bytes on the wire, in the form decided on, with chunks ended |
| ResponseFraming.SelfDelimitingExactly | http/server.go:1556-1580 | When the connection is reused, the repository's client can delimit the reply iff all lengths that stay in the headers, in any spelling, are one number in digits, and no encoding stays but the server's own |
| ResponseFraming.ReusedOnlyWhenDelimited | http/server.go:1135-1402 | The same for every run of a handler and every request |
| ResponseDecision.ClearExactly | http/server.go:1135-1402 | The head leaves no doubt iff the headers, the status, the first piece and the handler's being done, as they are before the head is written, are clear |
| ResponseDecision.DelimitedExactlyWhenClear | http/server.go:1556-1580 | For every run and request: a reply after which the connection is reused can be delimited iff these were clear at the moment the server decided on the head |
| ResponseFraming.SimpleHeadersDelimit | http/server.go:1556-1580 | A handler that sets one spelling of each key, at most one length in digits, and no encoding but "chunked" or "identity": a connection is reused only after a reply the client can delimit, whatever else it does |
| ResponseFraming.LengthIsAnnounced | http/transfer.go:656-738 | A reply with a length: the head has one, and if all agree the client reads the length the server counts by |
| ResponseFraming.TwoLengthsMislead | http/header.go:51-56 | Two values of Content-Length: the connection is reused and the client refuses the reply |
| ResponseFraming.SignedLengthMisleads | http/server.go:1067-1075 | The same for a length with a sign |
| ResponseFraming.OtherSpellingMisleads | http/server.go:1191-1204 | The same for a length under another spelling of the key |
| ResponseFraming.OtherChunkedMisleads | http/server.go:1358-1368 | The same for another spelling of "chunked" |
| ResponseFraming.ChunkedReplyIsRead | http/server.go:372-387 | A client's chunked reader gets exactly what the handler wrote |
| ResponseClass.Response.WriteHeader | http/server.go:1025-1076 | The whole new state; the first code that is not informational is the status, and a later call changes nothing |
| ResponseClass.Response.Write | http/server.go:1491-1528 | The whole new state; a write is accepted whole or refused, and counted either way |
| ResponseClass.Response.DecideClose | http/server.go:1208-1241 | Exactly when the connection is to be closed for reasons other than framing |
| ResponseClass.Response.DecideFraming | http/server.go:1335-1378 | Exactly when the reply is chunked, when only closing can end it, and which keys are deleted |
| ResponseClass.Response.CwWriteHeader | http/server.go:1135-1402 | The whole new state, with the framing fields sent |
| ResponseClass.Response.CwWrite | http/server.go:340-363 | The whole new state: a piece of the body goes out in the form announced |
| ResponseClass.Response.FinishRequest | http/server.go:1531-1540 | The whole new state of the finished reply |
| ResponseClass.Hello | http/server.go:968-977 | A handler that changes its header map and writes five bytes leaves the reply that the run of these events makes, whatever it put into the map |
| ConnReader.OneSocketRead | http/server.go:566-612 | In every interleaving at most one goroutine reads from the socket |
| ConnReader.NothingLost | http/server.go:580-697 | The bytes delivered, then the held byte, are the bytes taken from the socket in order |
| ConnReader.AbortEndsReads | http/server.go:620-632 | When abortPendingRead returns, no read is in progress |
| ConnReader.LimitBalance | http/server.go:660-697 | While a limit stands, the bytes delivered are those charged to it and those from the background, in every interleaving |
| ConnReader.LimitKeptExactly | http/server.go:634-697 | From a given state, no continuation without new background reads delivers more than the limit just set iff the limit is zero or no background byte is held or on its way, and no read begun before brings more than the limit |
| ConnReader.OneByteAboveLimit | http/server.go:890-910 | The run of a server: a byte read in the background during a handler, the limit for the next header, and one byte more than the limit delivered |
| ConnReader.BackgroundBytesAreFree | http/server.go:674-679 | With background reads under a limit any number of bytes would get through |
| DialRace.OneConnectionSurvives | dial.go:382-452 | At the end of every run the returned connection is open and every other one is closed |
| DialRace.FallbackStartsOnce | dial.go:418-436 | The fallback racer starts at most once |
| DialRace.ErrorIsPrimarys | dial.go:428-449 | An error is returned only after both racers failed, and is the primary's |
| DialRace.NeverStuck | dial.go:424-452 | Until the race is over some step can happen |
| DialRace.RaceEnds | dial.go:382-452 | Every run is over after at most seven steps |

## Left out

- The pool's `alt` (HTTP/2) branches: `pc.alt` is never set in this copy.
- getConn outside its sections, dialConn, the read and write loops' own work, TLS, proxies, tracing and logging.
- The idle timer's duration: with IdleConnTimeout set it may fire at any time, and any connection may be found too old.
- `list.List`, maps, `sync` and `bufio.Writer` are sequences, maps, atomic steps and a text with a free schedule.
- The heap nodes of the routing tree: a tree is a value that `ServeMux` replaces, so updating one node in place and the sharing of nodes are not modelled; the dictionary inside a node is modelled on its own.
- `routingIndex`, conflict detection (commented out in this copy), redirects, `cleanPath`, and what Unicode calls a letter in a wildcard name, which is a parameter.
- Prefixes and ranges of addresses, marshalling, and the other methods of `netip`.
- `Parse` and `String` of whole URLs: their round trip fails in corners, for example for a RawPath that is no valid encoding.
- `io.Copy` fast paths, gzip and multipart bodies, and how a request without a length finds out whether it has a body (`probeRequestBody`).
- A stream that returns bytes and an error from one read: the error of a `Bufio.Reader`'s stream, of any kind, comes behind its last byte.
- MessageBody.Body.ReadTrailer: does not model which fields a trailer has and which lines of it are malformed, only how far it reaches.
- Errors of the server's connection: the reuse decision has them as one flag.
- ResponseFraming.SelfDelimitingExactly: fields are compared by name and value; how a client splits lines whose key is no token, or whose value has control bytes, is not modelled.
- A handler that writes 2^63 bytes or more, which would overflow the count of written bytes.
- Hijacking, informational replies, `ReadFrom`, content sniffing, and headers that do not affect framing.
- ConnReader.AbortEndsReads: says nothing about how long the abort waits.
- HTTP/2, cookies, redirects, `DetectContentType` and the other tables of `net/http`.
- `dialSerial` itself, deadlines and contexts: a racer ends with a connection or an error at any time.
