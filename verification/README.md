# Verified model of the openGemini C++ client core

A Dafny model of the stateful core of the client: the lock-free load balancer,
the HTTP keep-alive pool with its retry loop, the line-protocol encoder, the
write operation on top of them, and Base64 for the Basic credentials. Each part
comes with proofs of what it promises for all inputs, all schedules and all runs.

Verify everything with `dafny verify dfyconfig.toml` (Dafny 4.11).

## How it is organised

| files | content |
|---|---|
| `RoundRobin`, `RoundRobinEpochs`, `RoundRobinTheorems` | `PickAvailableServer` as a step system: any number of calls over one atomic cursor, flags changing underneath |
| `RoundRobinRuns` | runs on which the cursor wraps, and the exact conditions they lead to |
| `LoadBalancer`, `LoadBalancerTheorems` | the balancer as an object: construction, a pick without interference, the health check; consecutive picks |
| `HealthRefinement` | what the object's health check does to the flags, its stores do in the step system |
| `LoneCall` | a call whose steps nobody interrupts does in the step system what the object does |
| `PoolProtocol`, `PoolTheorems` | the connection pool under any number of concurrent requests, as a step system |
| `ConnectionPool`, `PoolRefinement` | pool, connection and `SendRequest` as objects; a request that nobody interrupts does in the step system what the object does |
| `LineProtocol`, `LineProtocolTheorems`, `LineProtocolEncoder` | text of a point and a batch, a reader of the protocol, both directions of the round trip; the encoder as an object with a growing buffer |
| `Rounding` | `std::chrono::round` on timestamps |
| `Write`, `WriteTarget` | `RunWrite` over encoder, balancer and HTTP client; its target and how a server reads it |
| `Base64` | encoder, strict decoder of section 4 of RFC 4648, credentials of section 2 of RFC 7617 |
| `Arith`, `Collections`, `Decimal`, `Strings`, `Wrappers`, `Errors`, `Net` | shared vocabulary |

In both step systems a schedule is any sequence of steps, and a step that is not
enabled changes nothing, so a statement about every schedule is a statement about
every interleaving. Some state is history that no step reads (the log of probes,
the number of wraps, where a connection was put); the invariants tie it to the
real state. `std::size_t` is 64 bits wide: `fetch_add` wraps at `WORD`.

## What turned out to need a condition

- Round robin is lost when the cursor wraps, unless the server count divides the
  word. `CursorCountsProbes`, `NthProbe` and, for one round of probes,
  `RoundMeetsEachOnce` give the exact condition, `WrapBreaksRoundRobin` a run that
  shows it, `CursorBound` and `NeverWrapsWhileGood` when it cannot happen.
- Hand-off and fairness hold on all runs exactly when the server count divides the
  word: `HandOffIff` and `FairnessIff`, with runs on which a wrap breaks them. For
  other counts `HandOff` needs that no wrap falls between the throwing call's own
  probes; `HandOffInFlight`, `Fairness` and `QuiescentFairness` need no more than a
  bound on the calls in flight, because a server that stays good keeps the cursor low.
- For calls that do not overlap, `LoneThrow`, `ThrowKeepsTurn`, `EachGoodServerOnce`
  and `ServedInCyclicOrder` give the exact condition on the cursor.
- A name that ends in a backslash is not recovered from the text, because names do
  not escape the backslash; nor is one with a newline. `BatchRoundTripIff` gives
  the exact condition, `TrailingBackslashCollides` two points with one text.
- `std::chrono::round` overflows near the ends of the 64-bit range;
  `RepresentableIff` says exactly where.
- A database name or retention policy with an ampersand is not read back from the
  query of the target; `TargetReadsBackIff`.
- A user name with a colon is not recovered from the header; `CredentialsRecovered`.

## Model

| member | source | states |
|---|---|---|
| `RoundRobin.RunKeepsInv` | include/opengemini/impl/lb/LoadBalancer.cpp:66-85 | in every reachable state of every interleaving each call has made exactly the probes its loop counter says, a thrown call all of them, the cursor's residue counts all probes up to wraps, and what was added to it since the last exchange is owed by calls in flight or thrown |
| `RoundRobin.StepsNeverBlocked` | include/opengemini/impl/lb/LoadBalancer.cpp:66-85 | in every reachable state a call can go on exactly as the loop does: probe while probes are left and else throw, load the flag, fail its exchange at any time and succeed only on the expected value; new calls can start and flags be stored at any time |
| `RoundRobin.ExchangeKeepsResidue` | include/opengemini/impl/lb/LoadBalancer.cpp:74-79 | no successful exchange, whatever value was expected, changes the cursor's residue, and each leaves it below the server count |
| `RoundRobin.FetchAddKeepsResidue` | include/opengemini/impl/lb/LoadBalancer.cpp:70-71 | a `fetch_add` advances the residue by one and logs the server of that turn, across the word's end too |
| `RoundRobinTheorems.CursorCountsProbes` | include/opengemini/impl/lb/LoadBalancer.cpp:69-79 | the cursor modulo the server count equals the number of `fetch_add`s so far modulo it, if and only if the wraps so far are worth a multiple of the count |
| `RoundRobinTheorems.NthProbe` | include/opengemini/impl/lb/LoadBalancer.cpp:69-72 | the n-th probe of the whole system inspects server n modulo the count, with the same exact condition |
| `RoundRobinTheorems.AlignedRoundRobin` | include/opengemini/impl/lb/LoadBalancer.cpp:69-79 | both hold for all probes at once while nothing has wrapped, and always when the count divides the word |
| `RoundRobinTheorems.CursorBound` | include/opengemini/impl/lb/LoadBalancer.cpp:69-84 | with at most T calls in flight and F thrown since the last exchange the cursor stays below (T + F + 1) * size, and if that fits the word it never wraps |
| `RoundRobinTheorems.GaveUpSinceExchange` | include/opengemini/impl/lb/LoadBalancer.cpp:74-84 | the calls counted as thrown in that bound are those that threw after the last successful exchange of the schedule |
| `RoundRobinTheorems.BoundedRoundRobin` | include/opengemini/impl/lb/LoadBalancer.cpp:66-85 | so under such bounds round robin holds in every interleaving, with no condition on wraps |
| `RoundRobinTheorems.NeverWrapsWhileGood` | include/opengemini/impl/lb/LoadBalancer.cpp:66-85 | as long as one server stays good, at most t calls in flight keep the cursor below (t + 2) * size however many calls have thrown, and if that fits the word it never wraps |
| `RoundRobinTheorems.RoundRobinWhileGood` | include/opengemini/impl/lb/LoadBalancer.cpp:66-85 | so then every probe lands on the server whose turn it is, in every interleaving; likewise with no bound when the server count divides the word |
| `RoundRobinRuns.WrapBreaksRoundRobin` | include/opengemini/impl/lb/LoadBalancer.cpp:70-71 | for every server count that does not divide the word there is a run, with all servers down and one call at a time in flight, after which the cursor's residue no longer counts the probes |
| `RoundRobinEpochs.RoundMeetsEachOnce` | include/opengemini/impl/lb/LoadBalancer.cpp:69-72 | for no more servers than the word counts, size consecutive probes land on each server exactly once if and only if no wrap falls between them or the server count divides the word, whatever wrapped before |
| `RoundRobinTheorems.HandOff` | include/opengemini/impl/lb/LoadBalancer.cpp:67-85 | if a server has been good since before a call started, whatever the health check stored earlier, and the call threw all the same, and no wrap fell between that call's own probes or the server count divides the word, then strictly between its first and last probe another call's probe landed on that server, and that call can return nothing else |
| `RoundRobinTheorems.HandOffInFlight` | include/opengemini/impl/lb/LoadBalancer.cpp:67-85 | the same without looking at the probes, when the server count divides the word or at most t calls are ever in flight and (t + 2) * size fits the word |
| `RoundRobinRuns.WrapBreaksHandOff` | include/opengemini/impl/lb/LoadBalancer.cpp:67-85 | from every cursor whose next size probes would wrap harmfully there is a run on which a call throws, a server being good throughout, and nobody took its turn |
| `RoundRobinRuns.HandOffIff` | include/opengemini/impl/lb/LoadBalancer.cpp:67-85 | hand-off holds on all runs with no condition if and only if the server count divides the word |
| `RoundRobinTheorems.VisitorsStayCommitted` | include/opengemini/impl/lb/LoadBalancer.cpp:71-81 | whoever probes a server after it was brought back up, or while it was up from the start, is bound to it in every later state as long as it stays up |
| `RoundRobinTheorems.FlagIsLastStore` | include/opengemini/impl/lb/LoadBalancer.cpp:96-98 | over every schedule a server's flag is what the health check last stored into it, and as at the start when nothing was stored |
| `RoundRobinTheorems.DownServerNeverPicked` | include/opengemini/impl/lb/LoadBalancer.cpp:72 | once a server is taken down and not brought back, no call finds it good any more: a call that has chosen or returned it had done so before |
| `RoundRobinTheorems.LateCallerNeverGets` | include/opengemini/impl/lb/LoadBalancer.cpp:72 | in particular a call that starts after the server was taken down neither chooses nor returns it |
| `RoundRobinTheorems.Fairness` | include/opengemini/impl/lb/LoadBalancer.cpp:69-81 | with fixed flags the numbers of calls bound to any two good servers differ by at most one in every reachable state, when the server count divides the word or at most t calls are ever in flight and (t + 2) * size fits the word |
| `RoundRobinTheorems.QuiescentFairness` | include/opengemini/impl/lb/LoadBalancer.cpp:66-85 | under the same condition, once no call is in flight, the numbers of results returned for any two good servers differ by at most one |
| `RoundRobinRuns.FairnessIff` | include/opengemini/impl/lb/LoadBalancer.cpp:66-85 | the results returned are spread evenly on all runs with no condition if and only if the server count divides the word |
| `LoadBalancer.ConstructServers` | include/opengemini/impl/lb/LoadBalancer.cpp:103-132 | accepts exactly the non-empty lists of distinct endpoints with hosts, keeps them in order with all flags up, and otherwise throws for the first fault, host before duplicate |
| `LoadBalancer.LoadBalancer.constructor` | include/opengemini/impl/lb/LoadBalancer.hpp:73-74 | a new balancer starts at cursor zero over the accepted servers |
| `LoadBalancer.Scan` | include/opengemini/impl/lb/LoadBalancer.cpp:69-72 | the first probe that meets a good server, with none good before it, or none good at all |
| `LoadBalancer.LoadBalancer.ReduceCursor` | include/opengemini/impl/lb/LoadBalancer.cpp:74-79 | without interference the exchange loop ends within two attempts that do not fail spuriously, and leaves the cursor reduced modulo the server count |
| `LoadBalancer.LoadBalancer.PickAvailableServer` | include/opengemini/impl/lb/LoadBalancer.cpp:66-85 | without interference: the first server in cyclic order from the cursor that is good, with all before it down, and the cursor behind it; as long as the probes wrap nothing harmfully it throws exactly when no server is good |
| `LoadBalancer.LoadBalancer.HealthCheck` | include/opengemini/impl/lb/LoadBalancer.cpp:88-101 | after any number of completed pings a server is good exactly when its latest ping raised nothing and returned 204, and one never pinged is as before; endpoints stay |
| `HealthRefinement.HealthCheckRefines` | include/opengemini/impl/lb/LoadBalancer.cpp:94-98 | from any state of the step system with the object's flags, the stores of the same pings lead to the object's flags |
| `LoadBalancerTheorems.LoneThrow` | include/opengemini/impl/lb/LoadBalancer.cpp:67-85 | a call without overlap throws exactly when all servers are down, for all flags, if and only if its probes stay inside the word or the server count divides the word |
| `LoadBalancerTheorems.WrapMissesServer` | include/opengemini/impl/lb/LoadBalancer.cpp:67-85 | otherwise there are flags with a good server on which the call throws |
| `LoadBalancerTheorems.ThrowKeepsTurn` | include/opengemini/impl/lb/LoadBalancer.cpp:69-84 | a throw leaves the cursor at the same server, with its exact condition |
| `LoadBalancerTheorems.EachGoodServerOnce` | include/opengemini/impl/lb/LoadBalancer.cpp:66-85 | with k servers good k consecutive calls return each of them exactly once, for all flags, if and only if the first round of probes stays inside the word or the server count divides it |
| `LoadBalancerTheorems.ServedInCyclicOrder` | include/opengemini/impl/lb/LoadBalancer.cpp:66-85 | they return them in cyclic order from the cursor, for all flags, under the same exact condition |
| `LoadBalancerTheorems.ServeFollowsWalk` | include/opengemini/impl/lb/LoadBalancer.cpp:66-85 | consecutive calls, however many, return the good servers in cyclic order as often as they come round, as long as the probes have room in the word or the server count divides it |
| `LoneCall.LoneCallRefines` | include/opengemini/impl/lb/LoadBalancer.cpp:66-85 | whatever other calls are under way, however the steps of one new call alone run, spurious failures included: if they end it, it has the object's result and leaves the object's cursor |
| `LoneCall.LoneCallEnds` | include/opengemini/impl/lb/LoadBalancer.cpp:66-85 | and from wherever such a run stands its own steps can end it |
| `LoneCall.LoneCallThrows` | include/opengemini/impl/lb/LoadBalancer.cpp:67-85 | so a call without overlap throws exactly when all servers are down, when its probes stay inside the word or the server count divides it |
| `ConnectionPool.ConnectionPool.Retrieve` | include/opengemini/impl/http/ConnectionPool.tpp:46-61 | hands out the longest idle connection of the endpoint, or makes a fresh one that is in no queue; other queues stay |
| `ConnectionPool.ConnectionPool.Push` | include/opengemini/impl/http/ConnectionPool.tpp:63-73 | marks the connection used and puts it at the back of the queue it is given for, wherever it leads, or drops it when that queue is full; a connection that leads to the queue's endpoint keeps every queue at home |
| `ConnectionPool.Settling` | include/opengemini/impl/http/HttpClient.cpp:43-57 | the attempt that settles a request: all before it failed on pooled connections, and it succeeds or is the one after the queue ran out |
| `ConnectionPool.EndingMeans` | include/opengemini/impl/http/HttpClient.cpp:43-73 | what the promised ending is in the network's terms: pooled connections that broke are gone, the last attempt is the one that did not break or the fresh one, success carries the very status read, each failure its phase, and only a kept-alive response puts a connection back |
| `ConnectionPool.HttpClient.SendRequest` | include/opengemini/impl/http/HttpClient.cpp:31-74 | stale connections at the front are gone, the next one answers and goes to the back if kept alive, the rest keep their order; it succeeds exactly with the status read on a connection, kept alive or closed cleanly; errors surface only from a fresh connection made on an empty queue; at most one attempt per pooled connection and one more |
| `PoolProtocol.RunKeepsInv` | include/opengemini/impl/http/ConnectionPool.tpp:46-73 | in every reachable state queues hold few, distinct, used, kept-alive connections of their own endpoint, requests hold connections of theirs that are with nobody else, and every connection is where it was put |
| `PoolProtocol.StepsNeverBlocked` | include/opengemini/impl/http/HttpClient.cpp:43-71 | in every reachable state a request can go on with every step the code could take, for every answer of the network, and a finished one with none |
| `PoolTheorems.PoolSafety` | include/opengemini/impl/http/ConnectionPool.tpp:63-73 | a pooled connection is used, last ended an exchange with keep-alive, leads to its queue's endpoint, sits in one slot only and is in no request's hands; no queue exceeds its limit |
| `PoolTheorems.PooledWasKept` | include/opengemini/impl/http/HttpClient.cpp:59-62 | for every pooled connection the schedule holds a step at which the network ended an exchange on it with keep-alive |
| `PoolTheorems.StepOnQueue` | include/opengemini/impl/http/ConnectionPool.tpp:53-72 | a step changes a queue only by handing its oldest connection to the request that retrieves, or by putting the connection of the request that pushes at its back when there is room; the history records exactly that |
| `PoolTheorems.FirstInFirstOut` | include/opengemini/impl/http/ConnectionPool.tpp:53-56 | whatever the interleaving, connections leave a queue in the order in which they were pushed |
| `PoolTheorems.HeldByOne` | include/opengemini/impl/http/ConnectionPool.tpp:54-56 | no two requests hold one connection, and a held one leads to the request's endpoint |
| `PoolTheorems.Conservation` | include/opengemini/impl/http/ConnectionPool.tpp:46-73 | connections made for an endpoint = pooled + held + destroyed, in every reachable state |
| `PoolTheorems.LiveBound` | include/opengemini/impl/http/ConnectionPool.tpp:48-73 | if at most T requests to an endpoint are ever in flight, its pooled, held and being-made connections never exceed T, although they are made outside the lock |
| `PoolTheorems.NothingDropped` | include/opengemini/impl/http/ConnectionPool.tpp:69-72 | so with T at most the pool's limit whatever is pushed goes to the back of its queue |
| `PoolTheorems.RetryBound` | include/opengemini/impl/http/HttpClient.cpp:43-57 | a request that begins at some step of a schedule makes at most as many attempts as connections were pooled for its endpoint then, at most the limit, plus the pushes of other requests for it since, counted in the schedule, plus one |
| `PoolTheorems.AnswersAreRead` | include/opengemini/impl/http/HttpClient.cpp:53-73 | under any interleaving a request ends with an answer only with a status that the network gave to that request |
| `PoolTheorems.ErrorsAreFresh` | include/opengemini/impl/http/ConnectionPool.tpp:27-34 | a write or read error that reaches the caller came from a connection to the request's endpoint that had never served and never sat in any queue, a connect error from no connection |
| `PoolRefinement.LoneRequestRefines` | include/opengemini/impl/http/HttpClient.cpp:31-74 | from any reachable state, however the steps of one request alone run under given answers of the network: once they end it, it has made the attempts, got the answer and left the queue that the object promises for these answers, and all other requests and queues are as they were |
| `PoolRefinement.LoneRequestEnds` | include/opengemini/impl/http/HttpClient.cpp:43-57 | and from wherever such a run stands it can be brought to an end under the same answers |
| `PoolRefinement.EachStepCounts` | include/opengemini/impl/http/HttpClient.cpp:43-57 | every step a request takes leaves it less to do, so that without interference the retry loop cannot go on for ever |
| `Rounding.RoundIsNearest` | include/opengemini/impl/enc/LineProtocolEncoder.cpp:28-35 | the rounded number of ticks is the only one within half a tick, ties going to the even one |
| `Rounding.CountIsNearest` | include/opengemini/impl/enc/LineProtocolEncoder.cpp:107-121 | the printed number is the time itself at nanosecond precision, and otherwise the only multiple of the unit within half a unit of the time, an even one on a tie |
| `Rounding.CountMonotone` | include/opengemini/impl/enc/LineProtocolEncoder.cpp:107-121 | the printed number keeps the order of times, at every precision |
| `Rounding.CountIdempotent` | include/opengemini/impl/enc/LineProtocolEncoder.cpp:107-121 | a printed number prints as itself |
| `Rounding.UnitsNest` | include/opengemini/impl/enc/LineProtocolEncoder.cpp:114-120 | how many of each unit make the next: 1000, 1000, 1000, 60, 60 |
| `Rounding.OmittedIff` | include/opengemini/impl/enc/LineProtocolEncoder.cpp:108-127 | the timestamp is left out exactly when twice the time is within one unit of zero, for every precision |
| `Rounding.RepresentableIff` | include/opengemini/impl/enc/LineProtocolEncoder.cpp:28-35 | every number the rounding forms fits 64 bits exactly for the times from the first whole tick of the range up to, not including, the last |
| `Rounding.RepresentableInside` | include/opengemini/impl/enc/LineProtocolEncoder.cpp:28-35 | in particular for all times a whole unit inside the range |
| `LineProtocolTheorems.EscapeRecoversIff` | include/opengemini/impl/enc/LineProtocolEncoder.cpp:169-177 | in any context a component is recovered in front of what follows exactly when it does not end in an unescaped backslash before a delimiter; escaped text holds no bare delimiter |
| `LineProtocolTheorems.EscapedCharacters` | include/opengemini/impl/enc/LineProtocolEncoder.hpp:65-88 | in each of the four contexts exactly the named characters get a backslash, wherever they stand, and all others are copied |
| `LineProtocolTheorems.StringRoundTrip` | include/opengemini/impl/enc/LineProtocolEncoder.cpp:141-145 | a string value is recovered whatever it contains, newlines and backslashes included |
| `LineProtocolTheorems.ValueRoundTrip` | include/opengemini/impl/enc/LineProtocolEncoder.cpp:137-166 | every value comes back with its type |
| `LineProtocolTheorems.TagsRoundTrip` | include/opengemini/impl/enc/LineProtocolEncoder.cpp:78-87 | all tags come back in order |
| `LineProtocolTheorems.FieldsRoundTrip` | include/opengemini/impl/enc/LineProtocolEncoder.cpp:89-105 | all fields come back in order |
| `LineProtocolTheorems.TimestampText` | include/opengemini/impl/enc/LineProtocolEncoder.cpp:107-127 | the timestamp is left out exactly when the time is within half a unit of zero, and otherwise reads as the rounded time |
| `LineProtocolTheorems.PointRoundTripIff` | include/opengemini/impl/enc/LineProtocolEncoder.cpp:39-65 | the text of one point reads back as the point with its rounded time if and only if its names are clean |
| `LineProtocolTheorems.BatchRoundTripIff` | include/opengemini/impl/enc/LineProtocolEncoder.cpp:46-105 | the batch text gives back every point in order if and only if no measurement, tag key, tag value or field key has a newline or ends in a backslash |
| `LineProtocolTheorems.BatchTextInjective` | include/opengemini/impl/enc/LineProtocolEncoder.cpp:46-105 | two such batches with one text are the same lines |
| `LineProtocolTheorems.TrailingBackslashCollides` | include/opengemini/impl/enc/LineProtocolEncoder.hpp:84-88 | without the condition two different points have one text |
| `Decimal.ParseIntText` | include/opengemini/impl/enc/LineProtocolEncoder.hpp:43-47 | every printed integer reads back as itself |
| `Decimal.IntTextIff` | include/opengemini/impl/enc/LineProtocolEncoder.hpp:43-47 | and it is the only text of that integer without plus sign or leading zero |
| `LineProtocolEncoder.BatchFaultIff` | include/opengemini/impl/enc/LineProtocolEncoder.cpp:67-95 | a batch throws exactly the fault of its first invalid point, an empty measurement before empty fields |
| `LineProtocolEncoder.FaultStops` | include/opengemini/impl/enc/LineProtocolEncoder.cpp:46-65 | an invalid point leaves in the buffer the lines before it and, of its own, measurement and tags when only the fields are missing |
| `LineProtocolEncoder.LineProtocolEncoder.AppendEscapeString` | include/opengemini/impl/enc/LineProtocolEncoder.cpp:169-177 | appends the escaped string to the buffer |
| `LineProtocolEncoder.LineProtocolEncoder.AppendTags` | include/opengemini/impl/enc/LineProtocolEncoder.cpp:78-87 | appends the text of all tags |
| `LineProtocolEncoder.LineProtocolEncoder.AppendFields` | include/opengemini/impl/enc/LineProtocolEncoder.cpp:89-105 | appends the text of all fields, or throws with the buffer as it was when there is none |
| `LineProtocolEncoder.LineProtocolEncoder.AppendTimestamp` | include/opengemini/impl/enc/LineProtocolEncoder.cpp:107-127 | appends the rounded time unless it is zero |
| `LineProtocolEncoder.LineProtocolEncoder.EncodePoint` | include/opengemini/impl/enc/LineProtocolEncoder.cpp:39-44 | returns the buffer with the point's text behind what it held; throws on the first missing part, keeping what was written |
| `LineProtocolEncoder.LineProtocolEncoder.EncodeBatch` | include/opengemini/impl/enc/LineProtocolEncoder.cpp:46-55 | returns the buffer with one line per point behind what it held; throws for the first invalid point, keeping what was written |
| `Write.RunWrite.Run` | include/opengemini/impl/cli/write/Write.tpp:25-49 | posts the whole content once, to the picked server, only for accepted points and an available server; any rejected point means no post and no move of the cursor; every error is told apart |
| `Write.AcceptedIff` | include/opengemini/impl/cli/write/Write.tpp:28-34 | points are accepted exactly when the database is named, there is a point and every point is valid, in a batch as for one |
| `Write.AcceptedPointIsWhole` | include/opengemini/impl/cli/write/Write.tpp:33-42 | the content posted for an accepted single point reads back as that point if and only if its names are clean |
| `Write.AcceptedBatchIsWhole` | include/opengemini/impl/cli/write/Write.tpp:33-42 | the content posted for an accepted batch reads back as every point, in order, if and only if all names are clean |
| `WriteTarget.TargetReadsBackIff` | include/opengemini/impl/cli/write/Write.tpp:36-37 | the target goes to /write, and its query reads back as the database and the retention policy if and only if neither has an ampersand |
| `Base64.DecodeEncode` | include/opengemini/impl/util/Base64.hpp:26-33 | the strict decoder gets every byte string back |
| `Base64.EncodeDecode` | include/opengemini/impl/util/Base64.hpp:26-33 | nothing but the encoder's text decodes |
| `Base64.EncodedBits` | include/opengemini/impl/util/Base64.hpp:28-31 | the characters stand for the bits of the data in order, first byte first, filled up with zero bits |
| `Base64.Alphabet` | include/opengemini/impl/util/Base64.hpp:29-31 | the characters are those of table 1 of RFC 4648 in its order |
| `Base64.EncodedSize` | include/opengemini/impl/util/Base64.hpp:31-32 | four characters for every three bytes begun, with (3 - n % 3) % 3 pads, all at the end |
| `Base64.CredentialsRecovered` | include/opengemini/impl/ClientImpl.cpp:73-75 | a server that splits the decoded credentials at the first colon recovers user and password if and only if the user name has no colon |

## Left out

- Sockets, name resolution, TLS, timers, coroutines and HTTP parsing: every connect, write, read and shutdown is an outcome the environment chooses.
- The HTTPS client: its retry loop is that of the HTTP client.
- Relaxed memory ordering: the cursor is one location changed by read-modify-write steps, and flag loads and stores are separate atomic steps.
- Printing of doubles: a double is the numeral that the stream prints, which may have lost precision.
- `std::map` lookup and ordering: tags and fields are the sequences the encoder iterates over; the theorems hold for any order.
- Rounding.Round: computes on unbounded integers; where the 64-bit arithmetic of the code would overflow is said by `RepresentableIff`, what it then does is not modelled.
- LoadBalancer.LoadBalancer.PickAvailableServer: is the pick without interference; picks that interleave are the step system of `RoundRobin`.
- ConnectionPool.HttpClient.SendRequest: the body of its loop from write to push is the method `Attempt`; it is the request without interference; requests that interleave are the step system of `PoolProtocol`.
- LoadBalancer.LoadBalancer.HealthCheck: is cut off after any number of pings, and takes the outcome of each ping as given instead of sending it through the pool.
- Write.RunWrite.Run: the target is the plain concatenation; the percent-encoding of the characters that a query may not hold, and its undoing by the server, are not modelled.
- Query execution, JSON decoding, database and retention-policy commands, client configuration, context threads and completion tokens.
