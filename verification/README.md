# Verified models of a C++ HTTP server framework

Dafny models of the hand-written protocol logic of the framework, with proofs about whole runs of it. Objects
whose methods update fields are classes, each method proved against a function of the old state; the theorems are
about those functions. `dafny verify dfyconfig.toml` checks everything.

| module | what it models |
|---|---|
| `StompCodec`, `StompChunking`, `StompWire`, `Decimal` | STOMP 1.2 escaping, serialization and the incremental decoder |
| `StompBroker`, `StompDelivery`, `StompEndpoint`, `StompPublishing` | subscriptions, round-robin queues, acknowledgements, and the connections above them as interleaved steps |
| `Router` | the route trie: insertion, backtracking search for HTTP and WebSocket, and a linear scan as reference |
| `DependencyGraph`, `TopologicalOrder`, `Container` | cycle detection, Kahn's order, building and shutting down beans |
| `Utf8`, `WebSocketFrames`, `WebSocketConnection`, `WebSocketStreams` | the receiving side of RFC 6455 |
| `WebSocketSession`, `WebSocketQueue`, `WebSocketClosing`, `Http2Outbound` | the sending side: frames, budget, cross-thread queue, what the peer reads of it, and output over HTTP/2 |
| `RateLimit`, `RateLimitStore`, `RateLimitClients` | four rate-limit algorithms, the store that holds their entries, and what one of its clients gets |
| `Http1Parser`, `Http1Streams`, `Http1Messages`, `Http1Fields`, `Http1Pieces` | the resumable HTTP/1.1 parser, its behaviour under every partition of the input, its inverse, and what it accepts and refuses by character codes |
| `Arena` | the bump-pointer allocator |
| `Cancellation` | cancellation tokens as interleaved steps |

Main results:

- `StompCodec.RoundTripInPieces`, `StompCodec.RoundTripExact`, `StompChunking.ChunkingExact`: serialized frames come back
  however the bytes are cut, exactly the encodable frames do, and exactly which streams do not care about their pieces.
- `StompEndpoint.NothingOutlivesAConnection`, `StompPublishing.NoSubscriptionOutlives`, `StompPublishing.NothingOutlivesExactly`:
  what survives a connection, with a publish atomic and with its lock sections apart.
- `StompDelivery.PublishReaches`, `StompDelivery.NackResends`, `StompEndpoint.CommandsDo`: whom a publish reaches and with
  what, what a NACK sends again, and what each command does.
- `Router.TrieIsScan`, `Router.FoundExactlyWhenMatched`, `Router.HttpLookup`, `Router.WebSocketLookup`: the trie is a
  priority-ordered scan of the registrations, bindings and leftovers included.
- `DependencyGraph.CycleDetector.DetectCycles`, `TopologicalOrder.TopoOrder`, `Container.LivesNest`: a cycle is reported
  exactly when there is one; otherwise beans live nested inside the lives of what they depend on.
- `WebSocketStreams.PiecesDoNotMatter`, `WebSocketStreams.StreamMeaning`, `WebSocketStreams.DeliveredInPieces`,
  `WebSocketFrames.AcceptedExactly`, `Utf8.ValidUtf8`: what a byte stream means, in any pieces, fragments included.
- `WebSocketQueue.EveryRunIsSafe`, `Http2Outbound.BytesAreConserved`: at most one Close, bounded buffers, no byte lost or repeated.
- `RateLimit.GcraSpan`, `RateLimit.RemainingIsExact`, `RateLimit.RetryIsExact`, `RateLimit.SlidingRefinesHistory`,
  `RateLimit.BucketIsGcra`, `RateLimitClients.ClientIsBounded`: what the limiter and its store admit, over any run.
- `Http1Fields.RequestIsHandled`, `Http1Pieces.PiecesExact`, `Http1Messages.PipelineRoundTrip`, `Http1Streams.SameOutput`: pipelined requests.
- `Cancellation.ExactlyOnce`: in every interleaving, told from the steps alone.

Where the code does not give what one would expect, a lemma shows a failing input and another says exactly when the
property holds:

| expectation | fails for | holds if and only if |
|---|---|---|
| STOMP pieces do not matter | `StompCodec.HeartbeatOrderMatters` | `StompChunking.ChunkingExact` |
| an HTTP lookup returns the winner's bindings | `Router.HttpKeepsStaleParameter`, `Router.HttpKeepsStaleWildcard` | `Router.HttpExactness`, `Router.HttpSeparate` |
| a WebSocket lookup returns the winner's bindings | `Router.RepeatedNameLosesBinding` | `Router.WebSocketExactness` |
| a container's life touches its own beans only | `Container.DestroyedBeanIsCalled` | `Container.StaleHooks` |
| token bucket and GCRA agree in the store | `RateLimitStore.FirstRequestRefused` | `RateLimitStore.StoreBucketIsGcra` |
| requests may be cut anywhere | `Http1Pieces.TrailerCutMatters` | `Http1Pieces.PiecesExact` |
| a refused bucket client may return after retry-after | `RateLimit.RetryTooEarly` | `RateLimit.BucketRetryExact` |
| an allocation is aligned as asked | `Arena.MisalignedLarge` | `Arena.ArenaAllocator.OwnMappingAligned` |
| pending deliveries have an owner, with publishes split | `StompPublishing.LateRecordStays` | `StompPublishing.OwnedExactly` |
| nothing is pending for a session that is gone, ever after | `StompPublishing.LateRecordStays` | `StompPublishing.GoneExactly` |
| a Close tells the peer code and reason | `WebSocketClosing.CutInsideCharacter` | `WebSocketClosing.CloseIsReadBack` |
| written chunks are read back | `Http1Messages.EmptyChunkEndsBody` | `Http1Messages.ChunkedBodyExact` |

## Model

| member | source | states |
|---|---|---|
| StompCodec.EscapeText | src/messaging/stomp.cpp:20-33 | the escaping loop computes the character-wise escape, which contains no LF, CR or colon and is empty only for the empty string |
| StompCodec.UnescapeText | src/messaging/stomp.cpp:35-56 | the unescaping loop computes the recursive inverse, failing on a trailing backslash and on an unknown escape |
| StompCodec.UnescapeOfEscape | src/messaging/stomp.cpp:20-56 | unescaping undoes escaping on every string (STOMP 1.2, "Value Encoding") |
| StompCodec.ReadHeaders | src/messaging/stomp.cpp:153-171 | reading header lines by index in the buffer equals parsing the header section of the suffix: incomplete, malformed, or the last value per name |
| StompCodec.ReadHeaderLine | src/messaging/stomp.cpp:159-170 | a line is split at its first colon, bad without one or with an empty or unescapable name |
| StompCodec.Decoder.Feed | src/messaging/stomp.cpp:131-200 | one feed returns the frames of everything buffered and keeps what is left; an error loses the frames of that feed and is permanent |
| StompCodec.Decoder.EraseHeartbeats | src/messaging/stomp.cpp:138-139 | leading LFs and then leading CRLFs disappear, and nothing else |
| StompCodec.RestIsSettled | src/messaging/stomp.cpp:131-200 | what a successful feed leaves behind holds no whole frame and no removable heartbeat |
| StompCodec.CutInTwo | src/messaging/stomp.cpp:131-200 | if a stream decodes in one feed, its front decodes too, and the frames of front and remainder are those of the whole |
| StompCodec.FeedPiecesIsDecode | src/messaging/stomp.cpp:131-200 | successive feeds from any settled buffer amount to one feed of everything |
| StompChunking.CutAnywhere | src/messaging/stomp.cpp:131-200 | without an LF after a CRLF heartbeat at a frame boundary, a stream cut in two decodes, or fails, as the whole does |
| StompChunking.PiecesAreWhole | src/messaging/stomp.cpp:131-200 | and so it does in any pieces, from any settled buffer |
| StompChunking.StrayMatters | src/messaging/stomp.cpp:138-148 | with such an LF, the stream up to it fails in one feed, and everything before it decodes completely |
| StompChunking.ChunkingExact | src/messaging/stomp.cpp:131-200 | pieces matter at no stage of a stream, accepted or rejected, if and only if it has no such LF |
| StompCodec.HeartbeatOrderMatters | src/messaging/stomp.cpp:138-148 | CRLF followed by LF fails in one feed and passes in two |
| StompCodec.SerializeFrame | src/messaging/stomp.cpp:202-220 | the writer's loop emits the frame's text for whichever order the header map is walked in, adding a content-length when a body holds NUL and has none |
| StompCodec.FrameRoundTrip | src/messaging/stomp.cpp:140-220 | a serialized frame in front of any bytes parses to itself, with its added content-length, and leaves exactly those bytes |
| StompCodec.StreamRoundTrip | src/messaging/stomp.cpp:131-220 | a concatenation of serialized frames decodes to those frames and an empty buffer |
| StompCodec.RoundTripInPieces | src/messaging/stomp.cpp:20-220 | the same, for the bytes cut into any pieces |
| StompCodec.DecodedFrameShape | src/messaging/stomp.cpp:141-196 | every decoded frame has a non-empty one-line command, non-empty header names and a truthful content-length |
| StompCodec.RoundTripExact | src/messaging/stomp.cpp:131-220 | a frame survives serialization if and only if its command is non-empty, has no LF and does not end in CR, no header name is empty, and any content-length equals the body size |
| StompWire.EscapeEach | src/messaging/stomp.cpp:20-33 | the four escapes by their characters, at every position of a text; every other character stands for itself |
| StompWire.BadEscape | src/messaging/stomp.cpp:41-53 | a backslash at the end or before any other character is an error, wherever it stands |
| StompWire.LooseFrame | src/messaging/stomp.cpp:141-196 | a frame whose lines end in LF or CRLF, with repeated headers and a length with leading zeros, in front of anything, is read as what it says |
| StompWire.LastFieldCounts | src/messaging/stomp.cpp:153-171 | of headers with one name the last counts |
| StompWire.BadHeaderFails | src/messaging/stomp.cpp:159-170 | a header line without a colon, with nothing before it or with a bad escape spoils the frame, whatever precedes and follows |
| StompWire.DeclaredLengthDecides | src/messaging/stomp.cpp:173-190 | a declared length that is no 64-bit number, or no NUL behind the body, spoils the frame; before that byte nothing is decided; otherwise the body is exactly that long |
| StompWire.HeartbeatsDropped | src/messaging/stomp.cpp:138-139 | any number of LFs and then of CRLFs in front of a frame stand for nothing |
| Decimal.ParseOfText | src/messaging/stomp.cpp:173-183 | reading back a printed size gives the size, for all 64-bit sizes |
| Decimal.ParsedExactly | src/messaging/stomp.cpp:173-183 | a size is read from exactly its decimal text behind any number of zeros |
| Decimal.TextInjective | src/middleware/rate_limit_middleware.cpp:165-167 | different numbers have different texts |
| StompBroker.SimpleBroker.Subscribe | src/messaging/stomp.cpp:227-248 | accepted only for a supported destination, a named id and a live session; replaces the subscription of that session and id, or appends one |
| StompBroker.SimpleBroker.Unsubscribe | src/messaging/stomp.cpp:250-265 | removes that session's subscriptions under the id from every destination, empty destinations, and all its pending acks |
| StompBroker.SimpleBroker.Acknowledge | src/messaging/stomp.cpp:267-286 | succeeds exactly when the ack id is pending for the session, and removes what its mode says |
| StompBroker.SimpleBroker.NegativeAcknowledge | src/messaging/stomp.cpp:288-314 | resends the pending message, marked as redelivered, exactly while the session holds its subscription and accepts; the delivery stays pending |
| StompBroker.SimpleBroker.Publish | src/messaging/stomp.cpp:316-402 | counts accepted deliveries, records those to be acknowledged, and removes the subscriptions of sessions found dead; where everyone accepts, a topic counts all its subscribers, a user destination all subscribers of that principal, a queue one active subscriber if there is one |
| StompBroker.AddresseesAreTargets | src/messaging/stomp.cpp:321-348 | the message goes to everyone subscribed to a topic, to everyone subscribed to `/user/P/...` under principal P, to the first active subscriber in turn of a queue |
| StompBroker.TargetsAreAddressees | src/messaging/stomp.cpp:321-348 | and to nobody else |
| StompBroker.EveryoneCounts | src/messaging/stomp.cpp:316-402 | where every addressee accepts, the number returned is the number of addressees |
| StompDelivery.PublishReaches | src/messaging/stomp.cpp:316-402 | every addressee that accepts and must acknowledge gains exactly one pending entry, in its turn and numbered in its turn, holding the message published; nobody else does; exactly the subscriptions of sessions found dead go; exactly the cursor of that queue moves |
| StompDelivery.PublishOfNothing | src/messaging/stomp.cpp:318-341 | a destination without subscribers or outside the broker changes nothing and counts zero |
| StompDelivery.MessageIs | src/messaging/stomp.cpp:358-371 | a message carries the body and headers published, its destination, subscription and message id, and an ack id exactly where one is due |
| StompDelivery.IssuedEver | src/messaging/stomp.cpp:316-402 | in every run no message id is given out twice |
| StompDelivery.NackResends | src/messaging/stomp.cpp:288-402 | a NACK after a publish resends the message published to that subscription, with its destination, subscription and ack id, marked as redelivered |
| StompDelivery.NackExactly | src/messaging/stomp.cpp:288-402 | where one session is addressed through several subscriptions, which share an ack id, what comes back is the delivery refused if and only if it is the first of them |
| StompDelivery.AckConcernsItsSession | src/messaging/stomp.cpp:267-286 | an ACK is refused exactly when no entry of the session has that id, and touches nothing but the pending list of that session |
| StompBroker.SimpleBroker.DeliverEach | src/messaging/stomp.cpp:351-385 | the delivery loop appends to the pending list of each target that accepts and must acknowledge, in sequence |
| StompBroker.Sweep | src/messaging/stomp.cpp:253-263 | sweeping destination by destination, in any order, leaves exactly the subscriptions not gone, and no empty destination |
| StompBroker.AckRemoves | src/messaging/stomp.cpp:276-283 | on increasing sequences a client-mode ack removes exactly the prefix up to the message, a client-individual one exactly that entry |
| StompBroker.QueueTargetIn | src/messaging/stomp.cpp:328-336 | a queue message goes to the first active subscriber in turn from the cursor, and to nobody only if none is active |
| StompBroker.AfterMessagesIs | src/messaging/stomp.cpp:316-402 | messages to a queue move its cursor one by one and, while nobody is found dead, leave the subscribers alone |
| StompBroker.EveryoneIsServed | src/messaging/stomp.cpp:316-402 | round robin: while all subscribers are active and stay, of as many published messages as there are subscribers exactly one is addressed to each |
| StompBroker.SubscribedOnce | src/messaging/stomp.cpp:234-247 | subscribing never gives a session two subscriptions under one id at a destination |
| StompBroker.CleanedOnce | src/messaging/stomp.cpp:250-265 | nor does any sweep |
| StompBroker.UserMessagesArePrivate | src/messaging/stomp.cpp:337-344 | a message to a user destination reaches only subscribers with that principal |
| StompBroker.TargetsAreSubscribed | src/messaging/stomp.cpp:321-348 | every target is a subscriber of the destination |
| StompBroker.DeliverAllKeeps | src/messaging/stomp.cpp:351-385 | deliveries leave subscriptions alone, create pending lists only for targets, and keep every list in strictly increasing sequence |
| StompBroker.AcknowledgedKeeps | src/messaging/stomp.cpp:267-286 | acknowledging keeps pending lists ordered and creates none |
| StompBroker.PublishedKeeps | src/messaging/stomp.cpp:316-402 | publishing creates no subscription, creates pending lists only for subscribers, and keeps them ordered |
| StompEndpoint.FrameIsARun | src/messaging/stomp.cpp:559-656 | processing a frame is a run of the system whose whole new state is what its command asks: broker and recorded ids after SUBSCRIBE and UNSUBSCRIBE, broker after SEND and ACK, the flag after CONNECT |
| StompEndpoint.CommandsDo | src/messaging/stomp.cpp:559-656 | command by command and header by header, from the text of the frame: who is connected, which subscription with which acknowledgement mode exists, what is published, acknowledged or left alone |
| StompEndpoint.ConnectExactly | src/messaging/stomp.cpp:559-590 | a first frame is welcome exactly if it is CONNECT or STOMP, offers version 1.2 and has no or a readable heart-beat, and the periods agreed on are the longer ones, or none |
| StompEndpoint.UnsubscribedHas | src/messaging/stomp.cpp:250-265 | after unsubscribing, exactly the other subscriptions remain, and exactly that session's pending list is gone |
| StompEndpoint.SubscribedHas | src/messaging/stomp.cpp:227-248 | after subscribing, exactly the former session and id pairs and the new one exist; pending acks are untouched |
| StompEndpoint.ApplyKeeps | src/messaging/stomp.cpp:544-641 | every interleaved step keeps broker subscriptions recorded, pending acks owned and pending lists ordered |
| StompEndpoint.RunKeeps | src/messaging/stomp.cpp:544-641 | so does every run |
| StompEndpoint.NothingOutlivesAConnection | src/messaging/stomp.cpp:544-641 | in every reachable state each subscription is recorded by its connection, pending acks exist only where ids are recorded, and a closed connection has neither |
| StompEndpoint.ClosingEnds | src/messaging/stomp.cpp:544-557 | in every interleaving a closing session is gone after exactly as many of its broker calls as it had ids |
| StompEndpoint.NoDuplicatesEver | src/messaging/stomp.cpp:227-402 | in every run, no session has two subscriptions under one id at a destination |
| StompPublishing.UninterruptedPublish | src/messaging/stomp.cpp:316-402 | the lock sections of a publish, one after the other, are the atomic publish |
| StompPublishing.MoveAgrees | src/messaging/stomp.cpp:316-557 | every move of split publishes and connections, without exception, keeps subscriptions recorded and pending lists in order |
| StompPublishing.NoSubscriptionOutlives | src/messaging/stomp.cpp:316-557 | so in every run no subscription outlives its connection |
| StompPublishing.LateBreaks | src/messaging/stomp.cpp:351-385 | a move keeps pending deliveries owned by some id if and only if it is not the record of an accepted delivery, to be acknowledged, for a session that answers for no id any more |
| StompPublishing.OwnedExactly | src/messaging/stomp.cpp:316-557 | pending deliveries have an owner throughout a run if and only if no record in it comes late |
| StompPublishing.GoneExactly | src/messaging/stomp.cpp:316-557 | nothing will ever be pending for a session that is gone, whatever follows, if and only if nothing is pending for it and no publish under way owes it a delivery to be acknowledged |
| StompPublishing.OwedMayArrive | src/messaging/stomp.cpp:351-385 | what is owed can still come to be pending: a run that shows it |
| StompPublishing.NothingOutlivesExactly | src/messaging/stomp.cpp:316-557 | the same after every run from the start |
| StompPublishing.ChosenIsReached | src/messaging/stomp.cpp:316-349 | a client subscribes and a publish chooses it: a reachable state |
| StompPublishing.LateRecordStays | src/messaging/stomp.cpp:372-384 | if that client closes before its delivery is recorded, it is gone and still owed, and the late record is pending after the close |
| Router.InsertLookup | src/router/router.cpp:118-217 | an insertion sets its own slot at its own shape and changes nothing at any other shape, for HTTP and WebSocket |
| Router.InsertWellFormed | src/router/router.cpp:118-217 | siblings never share a segment |
| Router.BeforeIsTotal | src/router/router.cpp:259-305 | of two different shapes matching a path exactly one comes first in leftmost static, parameter, wildcard order |
| Router.WinnerIsCandidate | src/router/router.cpp:259-337 | what the backtracking settles on matches and has a handler |
| Router.WinnerIsFirst | src/router/router.cpp:259-337 | nothing that matches and has a handler comes before it |
| Router.SearchFindsWinner | src/router/router.cpp:259-337 | both searches return the handler of that shape, whatever parameters they have collected |
| Router.WinnerIsScan | src/router/router.cpp:118-337 | the shape found is the one a linear scan of the registrations picks |
| Router.TrieIsScan | src/router/router.cpp:118-337 | for every list of registrations and every path, the search returns what the scan returns, the last registration winning for a shape |
| Router.FoundExactlyWhenMatched | src/router/router.cpp:118-337 | a handler is found if and only if some registered pattern with a handler for the request matches segment by segment |
| Router.WebSocketParams | src/router/router.cpp:307-337 | in every trie, a WebSocket search returns exactly the winner's bindings without the names removed after the winner bound them |
| Router.WebSocketExactness | src/router/router.cpp:307-337 | it is exact if and only if no parameter is entered in vain below a binding of the same name that the winner does not bind again |
| Router.WebSocketParamsExact | src/router/router.cpp:307-337 | so it is exact when no name repeats on a way down |
| Router.HttpParams | src/router/router.cpp:259-305 | in every trie, an HTTP search returns exactly the winner's bindings overlaid with what failed branches set and the winner did not set again |
| Router.HttpExactness | src/router/router.cpp:259-305 | it is exact if and only if those leftovers agree with the bindings |
| Router.HttpSeparate | src/router/router.cpp:259-305 | when no name repeats on a way down: the names are those bound and those entered in vain, the bound values are right, and the result is exact if and only if every name entered in vain is a bound one |
| Router.HttpKeepsStaleParameter | src/router/router.cpp:288-294 | and it can deliver a parameter of a branch that failed |
| Router.StaleParameterIsRegistered | src/router/router.cpp:118-175 | two registrations give that trie |
| Router.HttpKeepsStaleWildcard | src/router/router.cpp:297-302 | or a wildcard that had no handler for the method, with no parameter anywhere |
| Router.StaleWildcardIsRegistered | src/router/router.cpp:118-175 | two registrations, for different methods, give that trie |
| Router.RepeatedNameLosesBinding | src/router/router.cpp:327-335 | a WebSocket search loses an outer binding when a failing inner parameter has the same name |
| Router.RepeatedNameIsRegistered | src/router/router.cpp:177-217 | two registrations give that trie |
| Router.BuildNames | src/router/router.cpp:140-155 | a parameter or wildcard is called what the first pattern that needed it called it |
| Router.BindingsFromTable | src/router/router.cpp:118-175 | so bindings can be read off the registrations |
| Router.WebSocketLookup | src/router/router.cpp:177-337 | handler and bindings of a WebSocket lookup from the list of registrations, but for the names removed again |
| Router.HttpLookup | src/router/router.cpp:118-305 | handler and bindings of an HTTP lookup from the list of registrations, with the leftovers, and when there are none |
| Router.Router.AddRoute | src/router/router.cpp:89-106 | rejects a pattern without a leading slash and changes nothing; otherwise the registration is the latest one and is listed |
| Router.Router.AddWebSocket | src/router/router.cpp:108-116 | the same for a WebSocket route, which is listed apart and not counted as a route |
| Router.Router.Match | src/router/router.cpp:219-240 | for a path `/r` or `/r?q`, where r has no question mark: the handler and bindings the scan picks for r, overlaid with exactly the leftovers of failed branches; none when nothing is found; a path without a leading slash finds nothing |
| Router.Router.MatchWebSocket | src/router/router.cpp:247-257 | for a path `/r` or `/r?q`: the handler and bindings the scan picks for r, without the names removed again; all of them when names do not repeat; a path without a leading slash finds nothing |
| Router.MatchesSegments | src/router/router.cpp:118-305 | a pattern matches a path, both given as lists of segments, if and only if they agree segment by segment: equal text, a parameter for any one segment, a wildcard for the rest |
| Router.FoundExactlyWhenFits | src/router/router.cpp:118-305 | a handler is found if and only if some registered list of segments fits and has one for the method or for any |
| Router.MethodThenAny | src/router/router.cpp:118-175 | a handler for the method comes before one for any method, the latest registration before earlier ones, and neither serves a WebSocket |
| Router.EarlierWins | src/router/router.cpp:259-305 | at the first segment where two patterns differ in kind, text comes before a parameter and a parameter before a wildcard |
| DependencyGraph.OrderedIsAcyclic | src/di/container.cpp:34-86 | a list of all registrations with dependencies first rules out cycles |
| DependencyGraph.TrapHasCycle | src/di/container.cpp:111-127 | a non-empty set in which everyone depends on a member contains a cycle |
| DependencyGraph.CycleDetector.Dfs | src/di/container.cpp:41-81 | either a real cycle is returned, or everything reachable is finished with dependencies first and the path is restored; it terminates |
| DependencyGraph.CycleDetector.ReportCycle | src/di/container.cpp:54-73 | the part of the path from the grey bean on, closed by it, is a cycle of the graph |
| DependencyGraph.CycleDetector.DetectCycles | src/di/container.cpp:34-86 | a cycle is reported if and only if the registered graph has one, unregistered dependencies ignored, and the report is a real cycle |
| TopologicalOrder.CountAll | src/di/container.cpp:96-104 | in-degrees count dependency entries with repetitions, and dependents list each bean that often |
| TopologicalOrder.InitialQueue | src/di/container.cpp:106-108 | exactly the beans without registered dependencies, once each, in any table order |
| TopologicalOrder.Release | src/di/container.cpp:114-116 | decrements by multiplicity and queues exactly what reaches zero, once |
| TopologicalOrder.KahnStep | src/di/container.cpp:111-117 | moving one bean from the queue to the order keeps the counters equal to what is still undone and the order dependency-first |
| TopologicalOrder.Drain | src/di/container.cpp:96-117 | Kahn's loop lists beans once each, dependencies first, and whoever is left over depends on someone left over |
| TopologicalOrder.DrainedCoversAcyclic | src/di/container.cpp:109-127 | on an acyclic graph nothing is left over |
| TopologicalOrder.TopoOrder | src/di/container.cpp:92-128 | every registration exactly once, duplicate edges included, and dependencies first if and only if the graph is acyclic |
| Container.RootContainer.Build | src/di/container.cpp:155-203 | refuses a second build and a cyclic graph with a real cycle; otherwise constructs the eager beans in dependency order, then runs all post-construct hooks |
| Container.RootContainer.InstantiateAll | src/di/container.cpp:169-190 | walks the order and constructs, owns and registers every bean that is neither lazy nor a prototype, numbered in that order |
| Container.RootContainer.InvokePostConstructs | src/di/lifecycle.cpp:19-25 | hooks run in registration order |
| Container.RootContainer.InvokePreDestroys | src/di/lifecycle.cpp:27-40 | hooks run in reverse |
| Container.RootContainer.Shutdown | src/di/container.cpp:209-224 | pre-destroy hooks, then destructors, each last bean first; nothing without a build; the lifecycle entries stay |
| Container.LogFollowsBeans | src/di/lifecycle.cpp:19-40 | construction follows the list of beans, and both teardowns reverse it, for every pair |
| Container.MadeIsEager | src/di/container.cpp:169-190 | a bean is built if and only if it is registered and neither lazy nor a prototype |
| Container.MadeFromRegistration | src/di/container.cpp:169-190 | each bean stands for one registration that is neither lazy nor a prototype, with the callbacks of that registration |
| Container.MadeInOrder | src/di/container.cpp:169-190 | an eager bean is built after its eager dependencies |
| Container.Live | src/di/container.cpp:155-224 | from build to shutdown, a container that may have lived before logs the constructions of its own beans, the hooks of all entries, and the destructions of its own beans |
| Container.LivesNest | src/di/container.cpp:155-224 | in every such life, a dependency is constructed before, post-constructed before, and torn down after, whatever depends on it, and no hook runs before the dependents are constructed |
| Container.OncePerLife | src/di/container.cpp:155-224 | in one life every bean is constructed, and each of its callbacks called, exactly once |
| Container.StaleHooks | src/di/lifecycle.cpp:9-40 | a life touches only its own beans if and only if no earlier bean has a post-construct or a pre-destroy hook |
| Container.LiveTwice | src/di/container.cpp:155-224 | the same on the object, built and shut down twice |
| Container.DestroyedBeanIsCalled | src/di/container.cpp:209-219 | one registration with only a pre-destroy hook: the hook runs again on the destroyed bean |
| Utf8.ValidUtf8 | src/websocket/websocket.cpp:68-105 | true exactly for concatenated encodings of Unicode scalar values (sections 3 and 4 of RFC 3629) |
| Utf8.ReadTail | src/websocket/websocket.cpp:91-95 | the inner loop accepts exactly continuation bytes and assembles their value |
| Utf8.EncodedIsCharacter | src/websocket/websocket.cpp:68-105 | every scalar's encoding is recognised in front of anything, at its length |
| Utf8.CharacterIsEncoded | src/websocket/websocket.cpp:68-105 | every recognised character is some scalar's encoding: no overlong form, surrogate or value above 0x10FFFF |
| Utf8.WellFormedIsEncoded | src/websocket/websocket.cpp:68-105 | accepted byte strings are exactly the encoded texts |
| WebSocketFrames.XorTwice | src/websocket/websocket.cpp:588-590 | exclusive or with the same byte twice is the identity |
| WebSocketFrames.XorAt | src/websocket/websocket.cpp:588-590 | each bit of an exclusive or is set exactly when the two bits differ |
| WebSocketFrames.MaskedTwice | src/websocket/websocket.cpp:585-590 | unmasking undoes masking for every payload and key |
| WebSocketFrames.BigEndianRoundTrip | src/websocket/websocket.cpp:341-350 | big-endian numbers of any width are read back |
| WebSocketFrames.ParseExtend | src/websocket/websocket.cpp:534-591 | a verdict on a frame is never changed by more input |
| WebSocketFrames.LengthRoundTrip | src/websocket/websocket.cpp:339-351 | the 7-, 16- and 64-bit length forms are read back, for every size below 2^63 |
| WebSocketFrames.MaskedEncoding | src/websocket/websocket.cpp:322-354 | setting bit 7 of byte 1, inserting a key behind the header and masking the rest turns the writer's bytes into a client frame |
| WebSocketFrames.FrameRoundTrip | src/websocket/websocket.cpp:322-591 | the writer's bytes, with the final bit kept or cleared, masked with any key and followed by anything, parse to that final bit, opcode and payload |
| WebSocketFrames.WrittenBytes | src/websocket/websocket.cpp:322-354 | the writer's bytes one by one: opcode values, the three length forms in network order, the payload |
| WebSocketFrames.AcceptedExactly | src/websocket/websocket.cpp:534-591 | a frame is read exactly when its bytes are one: no reserved bit, a known opcode, the mask bit, a length within the limit, control frames final and short, the payload combined byte by byte with the key |
| WebSocketFrames.RefusedExactly | src/websocket/websocket.cpp:540-583 | 1002 for exactly a bad first or second byte, a 64-bit length with its top bit or a bad control frame, and 1009 for exactly an acceptable start with too great a length |
| WebSocketConnection.ReadFrame | src/websocket/websocket.cpp:534-590 | the frame reader gives the specified verdict: incomplete, a protocol error with its code, or a whole frame, and then final bit, opcode, length and payload are those of the bytes |
| WebSocketConnection.Connection.Feed | src/websocket/websocket.cpp:529-604 | one feed runs the frame machine over everything buffered and keeps the unread rest; a closed connection ignores input |
| WebSocketConnection.Connection.ProcessFrame | src/websocket/websocket.cpp:606-682 | one step of the machine; the handler has been told of a close exactly when the connection is closed, and last of all |
| WebSocketConnection.Connection.ProcessCloseFrame | src/websocket/websocket.cpp:613-634 | closes with the peer's status if it is permitted and its reason readable, and with 1002 otherwise |
| WebSocketConnection.Connection.ProtocolClose | src/websocket/websocket.cpp:689-694 | closes with the given status and returns it as the error |
| WebSocketStreams.RunInTwo | src/websocket/websocket.cpp:529-604 | running over a stream is running over its front, then over what is left and the back |
| WebSocketStreams.PiecesDoNotMatter | src/websocket/websocket.cpp:529-604 | every partition of a stream gives the same messages, pongs and close notification as feeding it whole |
| WebSocketStreams.RunByFrames | src/websocket/websocket.cpp:529-682 | a stream is its whole frames, then an incomplete or malformed one |
| WebSocketStreams.ReassemblyFrom | src/websocket/websocket.cpp:606-682 | from any open message on, the connection stays open exactly when there is no Close and the data frames are well nested, sized and encoded, and then delivers their reassembly |
| WebSocketStreams.HoldsUnfinished | src/websocket/websocket.cpp:636-672 | while open, the connection holds exactly the fragments of the unfinished message |
| WebSocketStreams.ClosingStatus | src/websocket/websocket.cpp:606-694 | the frame that ends a connection ends it with 1002 for nesting, 1009 for size, 1007 for encoding, or the status of its Close payload |
| WebSocketStreams.AcceptedPrefix | src/websocket/websocket.cpp:606-682 | frames are accepted up to the one that closes; pings among them are answered in order |
| WebSocketStreams.StreamMeaning | src/websocket/websocket.cpp:529-694 | messages are the reassembly of the frames up to the first offending one, pings are answered in order, the offence decides the status notified last, and the connection stays open exactly without one |
| WebSocketStreams.RunIsSafe | src/websocket/websocket.cpp:529-694 | every message is within the limit and every text well encoded; at most one close notification, after everything else |
| WebSocketStreams.SentIsDelivered | src/websocket/websocket.cpp:322-682 | a text or binary message, in one frame or cut into any number of fragments with pings in between, each frame as the server writes it and masked with a key of its own, is delivered once, with the concatenated payload, after the answers to the pings, whatever follows |
| WebSocketStreams.StreamIsDelivered | src/websocket/websocket.cpp:322-682 | and a series of such messages in order, with nothing left over |
| WebSocketStreams.DeliveredInPieces | src/websocket/websocket.cpp:529-682 | the same from the start, for the bytes fed in any pieces |
| WebSocketStreams.MiddleIsGathered | src/websocket/websocket.cpp:636-672 | in the middle of a message continuations are gathered and pings answered, in order |
| WebSocketSession.TransportBackpressure.TryReserve | src/websocket/websocket.cpp:226-234 | reserves exactly when it fits or is forced |
| WebSocketSession.TransportBackpressure.Release | src/websocket/websocket.cpp:236-239 | releases what is asked for, stopping at zero |
| WebSocketSession.Session.SendFrameBytes | src/websocket/websocket.cpp:322-354 | the frame's bytes are appended exactly when buffer and transport both have room for them; otherwise the session is overloaded and closes |
| WebSocketSession.Session.CloseBytes | src/websocket/websocket.cpp:368-385 | one Close is sent, ever, with code and reason as given up to 123 bytes; buffered frames give way to it exactly if it does not fit behind them |
| WebSocketClosing.CloseIsReadBack | src/websocket/websocket.cpp:368-634 | a Close of the session, masked, closes any open connection that receives it, and its handler hears the code and reason given if and only if the code is permitted and the reason, cut to 123 bytes, is still UTF-8; otherwise 1002 |
| WebSocketClosing.StatusReadBack | src/websocket/websocket.cpp:49-53 | the status of a Close payload the session writes is the code given, for exactly the permitted codes |
| WebSocketClosing.CutInsideCharacter | src/websocket/websocket.cpp:370-374 | a readable reason of 124 bytes is cut inside its last character, and the peer hears 1002 |
| WebSocketClosing.OverloadIsTold | src/websocket/websocket.cpp:322-334 | a frame that does not fit is not buffered; the last frame is then a Close the peer reads as 1013 |
| WebSocketClosing.QueuedIsSent | src/websocket/websocket.cpp:700-717 | queued frames leave all, in their order and alone, while there is room for them |
| WebSocketClosing.NothingAfterClose | src/websocket/websocket.cpp:356-385 | what is queued behind a Close is not sent |
| WebSocketSession.Session.SendDataBytes | src/websocket/websocket.cpp:356-366 | data is refused after a Close |
| WebSocketSession.Session.TakeOutbound | src/websocket/websocket.cpp:391-393 | what leaves is the concatenation of whole frames |
| WebSocketQueue.SharedSession.Enqueue | src/websocket/websocket.cpp:134-165 | appends exactly what fits while active and not closing, and keeps the byte count exact; what does not fit replaces the queue by a Close with 1013 |
| WebSocketQueue.SharedSession.EnqueueClose | src/websocket/websocket.cpp:167-183 | accepts one Close, last in the queue |
| WebSocketQueue.SharedSession.Deactivate | src/websocket/websocket.cpp:190-197 | nothing stays queued |
| WebSocketQueue.SharedSession.TakeCommands | src/websocket/websocket.cpp:199-209 | everything queued is handed over in order and the count returns to zero |
| WebSocketQueue.EnqueueKeeps | src/websocket/websocket.cpp:134-165 | the queue's byte count equals the sum of its commands and stays within the limit |
| WebSocketQueue.CloseKeeps | src/websocket/websocket.cpp:368-385 | closing keeps the single-Close and size invariants, and has closed |
| WebSocketQueue.SendFrameKeeps | src/websocket/websocket.cpp:322-354 | so does sending |
| WebSocketQueue.ExecuteKeeps | src/websocket/websocket.cpp:702-714 | so does executing a queued command |
| WebSocketQueue.DrainExternal | src/websocket/websocket.cpp:700-717 | draining executes everything that was queued, in order, and hands out whole frames; the queue is empty and knows of a close |
| WebSocketQueue.DrainIsARun | src/websocket/websocket.cpp:700-717 | executing what was taken is a run of single steps, between which others may act |
| WebSocketQueue.StepKeeps | src/websocket/websocket.cpp:134-385 | every step of session and queue keeps all invariants |
| WebSocketQueue.EveryRunIsSafe | src/websocket/websocket.cpp:134-717 | over every run: at most one Close with no data frame after it among all frames drained and buffered, buffer within max(limit, 127), transport within its maximum plus 127, queue accounted for |
| Http2Outbound.Http2Stream.Queue | src/http2/http2_session.cpp:416-421 | data is appended to what is unread, unless the stream is inactive |
| Http2Outbound.Http2Stream.Submit | src/http2/http2_session.cpp:423-439 | a submission is active afterwards if it was, or if there is data and it was accepted |
| Http2Outbound.Http2Stream.Read | src/http2/http2_session.cpp:441-469 | hands out as much of what is unread as asked for, up to the end of the first buffer, and releases as many bytes; end of data exactly when nothing is left |
| Http2Outbound.ReadSplits | src/http2/http2_session.cpp:441-469 | chunk and remainder make up what was unread, and a non-empty buffer yields something |
| Http2Outbound.ReadKeeps | src/http2/http2_session.cpp:441-469 | a read lowers the counter by exactly what it hands out: the clamp never acts |
| Http2Outbound.CloseBalances | src/websocket/websocket.cpp:368-385 | frames that give way to a Close keep their reservation, and nothing else is reserved in vain |
| Http2Outbound.NextKeeps | src/http2/http2_session.cpp:416-469 | every event conserves bytes and budget |
| Http2Outbound.BytesAreConserved | src/http2/http2_session.cpp:416-469 | over every run of a fresh stream: bytes handed out followed by unread ones are everything queued, the front of a series of whole frames with at most one Close and no data behind it, and the whole series unless abandoned; the counter is exactly what is buffered, unread, or was dropped with its reservation, and exceeds its maximum by at most 127 |
| RateLimit.GcraSpacing | src/middleware/rate_limit_middleware.cpp:133-159 | each admission pushes the theoretical arrival an interval past every earlier one |
| RateLimit.GcraSpan | src/middleware/rate_limit_middleware.cpp:133-159 | a span of length D admits at most burst + floor(D / interval) requests, in every run |
| RateLimit.RemainingIsExact | src/middleware/rate_limit_middleware.cpp:133-159 | remaining is exactly how many more requests at the same instant would be admitted |
| RateLimit.RetryIsExact | src/middleware/rate_limit_middleware.cpp:56-159 | waiting retry-after seconds suffices, and one second less does not |
| RateLimit.AcquireSliding | src/middleware/rate_limit_middleware.cpp:113-131 | the trimming loop and the decision compute the sliding-window step |
| RateLimit.SlidingStepKeeps | src/middleware/rate_limit_middleware.cpp:113-131 | the deque is the recent end of the full history, and decides and counts as the history would |
| RateLimit.SlidingRefinesHistory | src/middleware/rate_limit_middleware.cpp:113-131 | a request is refused exactly when as many admissions as the limit lie within the last window |
| RateLimit.SlidingBound | src/middleware/rate_limit_middleware.cpp:113-131 | every half-open interval of window length holds at most the limit of admissions, in every run |
| RateLimit.SlidingRemainingIsExact | src/middleware/rate_limit_middleware.cpp:113-131 | remaining is exactly how many more requests at the same instant would be admitted |
| RateLimit.SlidingRetryIsExact | src/middleware/rate_limit_middleware.cpp:113-131 | waiting retry-after seconds suffices, and one second less does not, while the log is no longer than the limit |
| RateLimit.FixedBound | src/middleware/rate_limit_middleware.cpp:93-111 | a fixed window, opened by its first request, admits at most 2 * limit - 1 in an interval of window length |
| RateLimit.FixedBoundReached | src/middleware/rate_limit_middleware.cpp:93-111 | and for every limit there is a run that reaches that bound |
| RateLimit.FixedRemainingIsExact | src/middleware/rate_limit_middleware.cpp:93-111 | remaining is exactly how many more requests at the same instant would be admitted |
| RateLimit.FixedRetryIsExact | src/middleware/rate_limit_middleware.cpp:93-111 | waiting retry-after seconds suffices, and one second less does not |
| RateLimit.BucketSpan | src/middleware/rate_limit_middleware.cpp:64-91 | for every policy, a span of length D admits at most capacity + floor(D * limit / window) requests, in every run of a token bucket |
| RateLimit.BucketRetryExact | src/middleware/rate_limit_middleware.cpp:80-86 | a refused caller waiting retry-after seconds is admitted if and only if its wait is a whole number of nanoseconds or its whole nanoseconds are not whole seconds |
| RateLimit.RetryTooEarly | src/middleware/rate_limit_middleware.cpp:80-86 | three in ten seconds: told 3 s at 333333333 ns, a caller is refused again then |
| RateLimit.BucketMatchesGcra | src/middleware/rate_limit_middleware.cpp:64-159 | tokens and theoretical arrival that tell the same story give the same result and go on telling it |
| RateLimit.BucketIsGcra | src/middleware/rate_limit_middleware.cpp:64-159 | when the limit divides the window, a full bucket and a fresh GCRA agree on allowed, remaining and retry-after over every non-decreasing sequence |
| RateLimitStore.InMemoryStore.Acquire | src/middleware/rate_limit_middleware.cpp:161-200 | an invalid policy changes nothing; otherwise only the entry of that policy and client changes, others go only when a new client meets a full table, and then exactly the idle ones, and the client is turned away for a second exactly when there are none |
| RateLimitStore.ClientIsAlone | src/middleware/rate_limit_middleware.cpp:161-200 | whoever else is served in between, a client is answered as its own entry answers its own request times, while that entry finds room and is not pruned |
| RateLimitClients.ClientRunsAlone | src/middleware/rate_limit_middleware.cpp:64-200 | a new client of the store is answered as the fixed window opened by its first request, the sliding window from an empty log, GCRA with interval window / limit from its first request, or the token bucket empty at the epoch, with the burst where it is set; a GCRA policy with an interval below a nanosecond is an error |
| RateLimitClients.ClientIsBounded | src/middleware/rate_limit_middleware.cpp:64-200 | the admissions of one client of the store, whoever else is served: at most 2 * limit - 1 or limit per window, burst + floor(D / interval), burst + floor(D * limit / window) |
| RateLimitStore.PrunedFits | src/middleware/rate_limit_middleware.cpp:34-39 | pruning removes exactly the idle entries |
| RateLimitStore.KeysDoNotCollide | src/middleware/rate_limit_middleware.cpp:165-167 | two requests share an entry if and only if their policy names agree and their keys do, the empty key counting as "anonymous" |
| RateLimitStore.FreshBucketIsFull | src/middleware/rate_limit_middleware.cpp:64-79 | a new entry's bucket is full at its first request if and only if the clock has run for the time a full refill takes |
| RateLimitStore.StoreBucketIsGcra | src/middleware/rate_limit_middleware.cpp:64-159 | from a store entry, bucket and GCRA agree on a whole request sequence, when the limit divides the window, if and only if the clock had run for a full refill at the first request |
| RateLimitStore.FirstRequestRefused | src/middleware/rate_limit_middleware.cpp:64-91 | at the clock's epoch the bucket refuses a first request that GCRA admits |
| Http1Parser.GetLine | src/http1/http1_session.cpp:75-84 | the line up to the first CRLF and the offset behind it, or no line and the offset unchanged |
| Http1Parser.ReadTrailers | src/http1/http1_session.cpp:290-299 | trailer lines are consumed up to and including the blank one, or as far as they are complete |
| Http1Parser.Http1Session.FeedData | src/http1/http1_session.cpp:123-398 | one feed runs the parser over everything buffered, keeps the unread rest, and terminates because every pass consumes input or stops; Http1Fields tells what that run does with requests and with lines that are none |
| Http1Parser.Http1Session.NextStep | src/http1/http1_session.cpp:133-398 | the imperative pass takes the specified step from the current phase |
| Http1Parser.Http1Session.ReadChunk | src/http1/http1_session.cpp:263-311 | one chunk, the last chunk with its trailers, an error, or too little input |
| Http1Streams.AdvanceExtend | src/http1/http1_session.cpp:133-398 | a step taken on part of the input is the step taken on more of it, trailers excepted |
| Http1Streams.RunInTwo | src/http1/http1_session.cpp:123-398 | a stream cut in two, not inside trailers, runs as the whole |
| Http1Streams.PiecesDoNotMatter | src/http1/http1_session.cpp:123-398 | for any stream, valid or not: a partition none of whose feeds ends inside trailers handles the same requests, or fails, as the whole does |
| Http1Streams.ContentLengthPieces | src/http1/http1_session.cpp:123-398 | for requests framed by Content-Length every partition qualifies |
| Http1Streams.SameOutput | src/http1/http1_session.cpp:123-398 | if one feed of such a stream succeeds, every partition succeeds and writes the same bytes |
| Http1Pieces.TrailerCutMatters | src/http1/http1_session.cpp:285-300 | the last chunk and its blank line finish the request together, and fail with -4 apart |
| Http1Messages.HexRoundTrip | src/http1/http1_session.cpp:63-70 | chunk sizes the writer formats are read back, for all 64-bit sizes |
| Http1Messages.ChunkedBodyRoundTrip | src/http1/http1_session.cpp:63-311 | chunks as the writer emits them, in any non-empty pieces and with any trailer fields behind them, are read back as the concatenation of the pieces |
| Http1Messages.EmptyChunkEndsBody | src/http1/http1_session.cpp:63-70 | the writer's empty chunk is the terminator |
| Http1Messages.EmptyPieceFails | src/http1/http1_session.cpp:63-311 | after an empty piece the next size line is read as a request line, and fails with -1 |
| Http1Messages.ChunkedBodyExact | src/http1/http1_session.cpp:63-311 | chunk writer and chunk reader fit together if and only if no piece is empty |
| Http1Messages.OneHeader | src/http1/http1_session.cpp:225-254 | a header line sets exactly the fields its name stands for; Http1Fields.LowerIs says which names stand for what |
| Http1Fields.LowerIs | src/http1/http1_session.cpp:231-233 | a name stands for a key exactly if it has its letters, each as it is or as its capital, by character codes |
| Http1Fields.RequestIsHandled | src/http1/http1_session.cpp:133-398 | a request with header names and words in any mixture of cases, in front of anything, reaches the application with the declared number of body bytes or the concatenated chunks, the last Host as authority and the last Connection choice |
| Http1Fields.LengthInAnyCase | src/http1/http1_session.cpp:133-398 | the case of one header: Content-Length in any mixture of cases with the decimal text of k, then k bytes, then anything: the body is those k bytes |
| Http1Fields.DecimalForms | src/http1/http1_session.cpp:234-240 | every text of a length: white space and a sign may lead, anything may follow the digits; an error without a digit or from 2^64 on; a minus sign wraps around |
| Http1Fields.BlanksDoNotCount | src/http1/http1_session.cpp:12-226 | the first colon divides name and value, and blanks and tabs around both do not count |
| Http1Fields.SizeForms | src/http1/http1_session.cpp:271-283 | chunk sizes in digits of either case, with leading zeros and an extension behind a semicolon, are read |
| Http1Fields.ChunkInAnyForm | src/http1/http1_session.cpp:263-311 | such a chunk is appended when CRLF follows it, fails with -5 when something else does, and is waited for otherwise |
| Http1Fields.LastChunkInAnyForm | src/http1/http1_session.cpp:284-300 | any number of zeros ends the body, and trailer lines are dropped |
| Http1Fields.NoSizeFails | src/http1/http1_session.cpp:278-283 | a size line that does not begin as a number fails with -4 |
| Http1Fields.RequestLineExactly | src/http1/http1_session.cpp:138-160 | a request line is divided at its first and last space |
| Http1Fields.RequestLineFails | src/http1/http1_session.cpp:138-147 | it fails with -1 exactly when it has fewer than two; an empty line is skipped |
| Http1Fields.HeaderLineFails | src/http1/http1_session.cpp:217-241 | a header line fails with -2 exactly without a colon, and with -3 otherwise |
| Http1Fields.FieldFails | src/http1/http1_session.cpp:228-241 | -3 exactly for a length that is no number; every other field is recorded as it is |
| Http1Messages.HeadersStep | src/http1/http1_session.cpp:161-255 | a header section leaves the last Content-Length and Host, whether chunks were announced, and the last Connection choice |
| Http1Messages.MessageRoundTrip | src/http1/http1_session.cpp:133-398 | a request in front of anything reaches the application as it was written, with either framing, and the parser is ready for the next |
| Http1Messages.PipelineRoundTrip | src/http1/http1_session.cpp:133-398 | pipelined requests reach the application in order, each as written, with nothing left over |
| Http1Messages.RequestsInPieces | src/http1/http1_session.cpp:123-398 | and so they do in any pieces, when framed by Content-Length |
| Http1Pieces.MessageCut | src/http1/http1_session.cpp:133-311 | a request cut short halts the parser exactly between the line of its last chunk and the end of its trailer section, with the first unread line in hand |
| Http1Pieces.StreamCut | src/http1/http1_session.cpp:133-311 | so does a pipelined stream cut short |
| Http1Pieces.RuinedFeeds | src/http1/http1_session.cpp:263-311 | an unread line that does not read as size zero makes the session wait, fail or lengthen the body for good |
| Http1Pieces.PiecesExact | src/http1/http1_session.cpp:123-398 | requests with either framing and any trailer fields, in any pieces, all arrive as written if and only if no cut inside a trailer section leaves a first unread line that does not read as chunk size zero; if no trailer line reads as a size, the session fails with -4 otherwise |
| Http1Pieces.DateIsASize | src/http1/http1_session.cpp:272-283 | a Date field is read as a chunk size of 218 |
| Http1Pieces.HarmlessTrailerCut | src/http1/http1_session.cpp:285-300 | a cut inside trailer fields can be harmless: a trailer line that is itself a last chunk |
| Arena.AlignUpBounds | src/memory/arena_allocator.cpp:90-101 | rounding up gives the next multiple, less than one alignment away |
| Arena.PageIsAligned | src/memory/arena_allocator.cpp:82-124 | a page boundary suits every alignment that divides a page |
| Arena.ArenaAllocator.constructor | src/memory/arena_allocator.cpp:13-16 | a first block of at least a page, nothing live |
| Arena.ArenaAllocator.Allocate | src/memory/arena_allocator.cpp:82-124 | the new allocation is inside an owned mapping, disjoint from every live one and aligned as asked, except that a mapping of its own is aligned to a page only; fails, changing nothing, only when a mapping is needed and refused |
| Arena.ArenaAllocator.ServedInPlace | src/memory/arena_allocator.cpp:82-124 | the current block serves a request exactly when it is not a large one and some aligned place in the rest of the block holds it |
| Arena.ArenaAllocator.OwnMappingAligned | src/memory/arena_allocator.cpp:88-113 | such a mapping is aligned as asked, whatever page the system returns, if and only if the alignment divides a page |
| Arena.MisalignedLarge | src/memory/arena_allocator.cpp:88-96 | a large request aligned to 8192 comes back at 4096 |
| Arena.ArenaAllocator.MapBlock | src/memory/arena_allocator.cpp:138-144 | a new current block, live allocations untouched |
| Arena.ArenaAllocator.Reset | src/memory/arena_allocator.cpp:27-45 | nothing is live, only the first block remains, and usage is zero |
| Arena.ArenaAllocator.BytesUsed | src/memory/arena_allocator.cpp:58-80 | lies between the sum of live requested sizes and the total mapped |
| Arena.ArenaAllocator.TotalAllocated | src/memory/arena_allocator.cpp:47-56 | the sum of all mappings |
| Cancellation.SwapKeeps | include/novaboot/async/cancellation.h:106-114 | the swap moves exactly the waiting callbacks to the first cancel |
| Cancellation.ApplyKeeps | include/novaboot/async/cancellation.h:64-114 | every step keeps table, handles, local map and run counts in agreement; no stale handle names a live entry |
| Cancellation.RunTells | include/novaboot/async/cancellation.h:64-114 | the state after any interleaving agrees with what its steps say about a registration |
| Cancellation.AtMostOnce | include/novaboot/async/cancellation.h:26-114 | in every interleaving each callback is called at most once |
| Cancellation.ExactlyOnce | include/novaboot/async/cancellation.h:64-114 | once its on_cancel and the first cancel have returned, a callback has been called exactly once, or not at all if and only if it was registered before any cancel and reset before the swap |
| Cancellation.ResetIsFinal | include/novaboot/async/cancellation.h:64-70 | a callback reset before the swap is never called |

## Left out

- QUIC, HTTP/3, TLS, the nghttp2 session apart from its WebSocket output queue, sockets, the event loop and signals: their logic is in libraries or the kernel.
- RestClient, the STOMP relay, JWT, CSRF, sessions, the ORM, CORS, compression and actuator code: network clients, cryptography or single-branch facts.
- Hash maps: their iteration order is a parameter, any listing of the keys.
- Integer widths: sizes are unbounded, except where text is converted to a 64-bit size; wrap-around of sums of sizes is not modelled.
- Bit operations are written as division, remainder and multiplication; exclusive or is defined bit by bit.
- Bytes of STOMP and HTTP/1.1 text are characters.
- StompEndpoint.NothingOutlivesAConnection: broker calls are atomic steps here; StompPublishing takes a publish apart. Application destinations and receipts do not touch the broker and are not steps.
- Router nodes are values: unique ownership in the original excludes aliasing, so update in place is not visible.
- Container: factories do not throw; lazy, prototype and narrower scopes, asynchronous waits and timeouts are not modelled.
- WebSocket handshake, meters, the session registry and handler callbacks that call back into the connection are not modelled.
- RateLimit: the doubles of the token bucket and of the rounding to seconds are exact reals and integers, times are non-decreasing where a theorem says so, and a policy does not change during a run.
- Http1Parser: upgrades, event streams and the text of responses; a response is any function of the requests so far.
- Http1Parser.Http1Session.FeedData: not called again after an error, because the owner closes the connection (src/net/tcp_connection_manager.cpp).
- Http1Streams.PiecesDoNotMatter: excludes every feed that ends inside trailers, some of which do no harm; Http1Pieces.PiecesExact is exact for streams of well-formed requests.
- Arena: the addresses the system returns are a parameter; alignments are powers of two in the original and any positive number here.
- Cancellation: callbacks that throw, and tokens or callbacks that are empty.
