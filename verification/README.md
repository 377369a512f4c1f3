# Verified model of a C++ web and RTSP/RTP video server

The server accepts clients in an epoll loop, times them out with a heap of
deadlines, answers HTTP requests on a thread pool, and plays H.264 files over RTP.
This project models its stateful core in Dafny and proves what that core promises.
`dafny verify dfyconfig.toml` checks everything.

| file | models |
|---|---|
| `heap_order.dfy`, `heap_timer.dfy` | `HeapTimer`: the min-heap of deadlines and its position index |
| `server_loop.dfy`, `web_server.dfy` | what the event loop does to clients, epoll and timer: as functions on values, and method by method |
| `event_loop.dfy` | whole runs of loop thread, workers and clock, in every interleaving |
| `annex_b.dfy` | `H264Parser`: cutting a byte stream at start codes (Annex B of ITU-T H.264) |
| `rtp_packet.dfy`, `rtp_bits.dfy`, `rtp_stream.dfy` | the RTP header (section 5.1 of RFC 3550), the packets of a NAL unit (sections 5.6 and 5.8 of RFC 6184), whole streams, and a receiver for them |
| `rtp_sender.dfy`, `rtp_delivery.dfy`, `rtp_flags.dfy`, `rtp_end_to_end.dfy` | `RTP`: filling the packet buffer and sending; what a socket takes of it; what a receiver makes of S and E; file to receiver |
| `thread_pool.dfy`, `block_deque.dfy`, `sql_conn_pool.dfy` | the three concurrency primitives, as steps between lock and unlock |
| `buffer.dfy`, `server_conn.dfy` | `Buffer`, and the scatter/gather response writer over it |
| `http_request.dfy` | `HttpRequest::parse` over `Buffer` |
| `cpp_ints.dfy`, `options.dfy` | C++ division, remainder and narrowing; an option type |

Classes keep the source's fields and are changed in place; each method is proved
against functions or predicates on values (`Represents`, `TickRun`, `Frames`,
`StreamOf`, `Parsed`, ...), about which the lemmas prove what the source is for.
For the concurrent parts a `State`, the steps `Enabled` in it and the function
`Apply` are the model, and a `Run` is any sequence of enabled steps from the start.
What the kernel, the clock and the database answer are parameters. Where a method is
proved against a function, a lemma says what that function amounts to in the numbers,
bytes and names of the source.

## Where the code falls short of its intent

The code is modelled as it is. Where a promise fails, there is an exact condition
for it, a concrete failing case, or both.

- `siftup_` has no stop at the root: its index is unsigned, so it goes on to compare
  with storage outside the vector (code/timer/heaptimer.cpp:10-16), which C++ leaves
  undefined. `HeapTimer.stray` holds the answers these comparisons happen to get: `true`
  ends the loop, as was meant; with `false` the program aborts. Every operation says
  exactly when it makes such a comparison. Adding a timer makes none if and only if a
  timer other than the one to be overwritten expires strictly earlier, or the one to be
  overwritten has a child in the heap (`HeapTimers.AddStaysIff`, for a deadline that is
  not before any live one, which is the server's case); so the first client of all, and
  a lone client that reconnects on its descriptor (`HeapTimers.LoneReconnectAborts`),
  depend on luck. A tick with something to fire makes none if it leaves three timers or
  more, or had a single one; it always makes one when it leaves one or none of several;
  leaving two depends on the order of the root's children (`HeapTimers.TickStaysIff`,
  `HeapTimers.TickStaysByCount`, and `HeapTimers.TickAbortsAtTwo` for two clients). All
  that is proved of the timer's contents holds under "the operation did not abort".
- `adjust` only sifts down (code/timer/heaptimer.cpp:95-96). `HeapTimer.Adjust` keeps
  the heap exactly when the new deadline is not before the parent's;
  `EventLoop.AdjustOnlyPostpones` shows that the server only postpones.
- `GetNextTick`'s clamp to zero tests an unsigned value and is dead
  (code/timer/heaptimer.cpp:126-129): `HeapTimers.WaitBoundsDeadlines` and
  `HeapTimers.WaitBlocksOverdueTimer`.
- `ServerConn::Close` tests `isClose_`, then sets it and counts the client out, then
  closes the descriptor, on any thread and without a lock
  (code/http/serverconn.cpp:40-48). `EventLoop.OpenClientsAreTimed` gives the user count
  with the races in it, `EventLoop.OneCloserKeepsCount` a discipline that avoids them.
  `EventLoop.TwoClosersMiscount` is a run that ends with a count of -1; in
  `EventLoop.LateCloseHitsSuccessor` and `EventLoop.LateFlagHitsSuccessor` a late close
  hits the next client on the descriptor. `EventLoop.UntouchedIsServed` says whom that
  cannot happen to.
- `find_next_start_code` tests three bytes whatever is left
  (code/rtp/h264parser.cpp:55), so it may look behind the file:
  `AnnexB.SlackMatters` says for which memory there it makes a difference, and
  `AnnexB.MalformedFirstIff` for which it can even make the parser fail in mid-file.
- The last NAL unit is never returned (code/rtp/h264parser.cpp:72-74):
  `AnnexB.LastUnitUnread`.
- The S and E bits that the fragment loop sets are overwritten at once
  (code/rtp/rtp.cpp:197-202), and the marker bit is never set, though
  code/rtp/rtp.h:14-20 asks for it: `RtpPackets.FragmentFlags`,
  `RtpStreams.NumberedOn`. A receiver that goes by S and E gets exactly the units that
  need no fragments (`RtpFlags.ByFlagsGetsWhole`, `RtpEndToEnd.FlagsRecoverIff`); the
  other one modelled here groups packets by timestamp.
- A whole NAL unit of type 28 looks like a fragment: `RtpPackets.PayloadsRoundTrip`.
- Every full fragment makes a packet of 65508 bytes, one more than a UDP datagram over
  IPv4 holds, although code/rtp/rtp.h:30-36 subtracts the headers: `sendto` refuses it
  and `pushStream` goes on. All packets of a unit fit if and only if it needs no
  fragments (`RtpDelivery.AllPacketsFitIff`; `RtpDelivery.OneByteTooLong` for a unit of
  65495 bytes of which nothing gets through), and the receiver recovers the stream if
  and only if none of its units needs them (`RtpEndToEnd.DeliveredIff`,
  `RtpEndToEnd.SendRTPPacket`). What is proved of fragments is proved of what
  `sendto` is given.
- `BlockDeque::pop` looks at `isClose_` only after a wait, and pushes do not look at
  all. `BlockDeques.PopSleepsIff` says which pops sleep and
  `BlockDeques.LosesWakeUpIff` which steps lose a wake-up;
  `BlockDeques.NoLatePushNoneLost` that none does while nothing is pushed on a closed
  deque, `BlockDeques.CloseReleasesSleepers` whom `Close` does release;
  `BlockDeques.PopAfterCloseSleeps` and `BlockDeques.WakeUpLostAfterClose` are runs.
- `UserVerify` returns its connection twice (code/http/httprequest.cpp:183,235):
  `SqlConnPools.FreeExactness`, `SqlConnPools.VerifyFreesTwice`,
  `SqlConnPools.ConnectionShared`.
- A body is the first line behind the blank line, whatever Content-Length says, and
  one without CRLF stays in the buffer (code/http/httprequest.cpp:53-61):
  `HttpRequests.BodyRoundTrip`, `HttpRequests.BodyConsumedIff`.
- `parse` returns true on a request of which only the first line has arrived, and
  consumes it: `HttpRequests.ParseOkIff`, `HttpRequests.UnfinishedParsed`.
- `OnWrite_` renews a one-shot registration only when nothing is left to send or on
  EAGAIN (code/server/webserver.cpp:197-220). The rest of a response is never sent in
  every other case, and a level-triggered write ends so whenever it leaves from 1 to
  10240 bytes: `ServerConns.ServerConn.OnWrite`.

## Model

| member | source | states |
|---|---|---|
| `HeapOrder.ExchangeRepresents` | code/timer/heaptimer.cpp:19-25 | swapping two nodes and re-pointing the two index entries keeps `ref_` the exact inverse of the positions and changes no timer |
| `HeapOrder.RekeyRepresents` | code/timer/heaptimer.cpp:55-56 | giving a node a new deadline and callback changes that one timer |
| `HeapOrder.DropLastRepresents` | code/timer/heaptimer.cpp:88-89 | erasing the last node removes exactly its timer and leaves a heap a heap |
| `HeapOrder.AppendRepresents` | code/timer/heaptimer.cpp:47-49 | appending a node with a new id adds exactly its timer |
| `HeapOrder.AppendKeepsOrderAround` | code/timer/heaptimer.cpp:47-50 | after the append only the new node is out of order; it climbs to the root, and out of the vector, if and only if no timer expires earlier |
| `HeapOrder.RootIsEarliest` | code/timer/heaptimer.cpp:105 | no node of a heap expires before the root |
| `HeapOrder.RootIsEarliestTimer` | code/timer/heaptimer.cpp:105 | the front node is a timer that no other precedes, and the heap is empty exactly when there is no timer |
| `HeapOrder.PickedChildIsLeast` | code/timer/heaptimer.cpp:33-34 | the child `siftdown_` picks is a least one, the right one only if it is strictly earlier, and it decides whether the node sinks |
| `HeapOrder.SinkStep` | code/timer/heaptimer.cpp:35-37 | one turn of `siftdown_` moves the only disorder down to the child |
| `HeapOrder.ClimbStep` | code/timer/heaptimer.cpp:12-15 | one turn of `siftup_` moves the only disorder up to the parent |
| `HeapOrder.OrderRestored` | code/timer/heaptimer.cpp:8-40 | once the moved node fits both ways the whole prefix is a heap |
| `HeapOrder.ExchangeWithLast` | code/timer/heaptimer.cpp:82 | the swap before a deletion leaves the prefix a heap but for the node swapped in |
| `HeapOrder.OnlySinking` | code/timer/heaptimer.cpp:92-97 | what `siftdown_` alone makes of a re-keyed heap: a node that does not move must fit below its parent, one that moves does, and one that is postponed does |
| `HeapOrder.OverwriteSettlesIff` | code/timer/heaptimer.cpp:54-59 | a node postponed to the last deadline of all stays inside the vector if and only if it has a child or another node expires strictly earlier |
| `HeapOrder.PopStaysIff` | code/timer/heaptimer.cpp:82-85 | removing the root needs no climb, hence no read outside the vector, unless one timer would be left, or two would and the last node is the earlier child |
| `HeapOrder.SunkOrdered` | code/timer/heaptimer.cpp:27-40 | what `siftdown_` makes of a heap with one node out of order from above is a heap |
| `HeapOrder.SunkRepresents` | code/timer/heaptimer.cpp:27-40 | and it stands for the same timers, nodes behind the prefix unmoved |
| `HeapOrder.PoppedRepresents` | code/timer/heaptimer.cpp:74-90 | what is left after removing the root is a heap of exactly the other timers |
| `HeapOrder.OneNodeEach` | code/timer/heaptimer.cpp:42-61 | the heap has one node for each timer |
| `HeapTimers.HeapTimer.SwapNode` | code/timer/heaptimer.cpp:19-25 | exchanges two nodes and keeps the index exact |
| `HeapTimers.HeapTimer.SiftUp` | code/timer/heaptimer.cpp:8-17 | restores the heap by permuting nodes; makes a comparison outside the vector exactly when no strictly earlier node is met, and then ends as that answers |
| `HeapTimers.HeapTimer.SiftDown` | code/timer/heaptimer.cpp:27-40 | answers whether a child expired no later; if so the prefix is a heap, if not nothing changed and the node leads its children; nodes behind the prefix stay; the heap is the one the lemmas on `Sunk` speak of |
| `HeapTimers.HeapTimer.EarlierChild` | code/timer/heaptimer.cpp:31-34 | the child that `HeapOrder.PickedChildIsLeast` is about |
| `HeapTimers.HeapTimer.Reseat` | code/timer/heaptimer.cpp:57-59 | sifting down, and up only if nothing moved, makes the prefix a heap whichever way the key changed |
| `HeapTimers.HeapTimer.Add` | code/timer/heaptimer.cpp:42-61 | inserts or overwrites exactly that timer; the exact condition for a safe insert and for a safe overwrite |
| `HeapTimers.AddStaysIff` | code/timer/heaptimer.cpp:42-61 | with no live deadline after the new one, adding stays inside the vector if and only if another timer expires strictly earlier or the timer to overwrite has a child |
| `HeapTimers.AddStaysRising` | code/timer/heaptimer.cpp:42-61 | with all live deadlines before the new one, if and only if there is another timer |
| `HeapTimers.LoneReconnectAborts` | code/timer/heaptimer.cpp:54-59 | overwriting the only timer leaves the vector |
| `HeapTimers.HeapTimer.Del` | code/timer/heaptimer.cpp:74-90 | removes exactly the timer at that position, also from mid-heap; the exact condition for safety |
| `HeapTimers.HeapTimer.ToBack` | code/timer/heaptimer.cpp:82-85 | the node is last, the others are a heap, no timer changed |
| `HeapTimers.HeapTimer.DropLast` | code/timer/heaptimer.cpp:88-89 | exactly the last node's timer is gone |
| `HeapTimers.HeapTimer.DoWork` | code/timer/heaptimer.cpp:63-72 | calls that timer's callback and removes exactly it, does nothing for an unknown id; the exact condition for safety |
| `HeapTimers.HeapTimer.Adjust` | code/timer/heaptimer.cpp:92-97 | changes only that timer's deadline; the result is a heap if and only if the new deadline is not before the parent's; postponing always is |
| `HeapTimers.HeapTimer.Pop` | code/timer/heaptimer.cpp:114-117 | removes exactly the root's timer; aborts, if the stray read does not help, exactly when one timer is left or two are and the last node was the earlier child |
| `HeapTimers.HeapTimer.Clear` | code/timer/heaptimer.cpp:119-122 | no timer is left |
| `HeapTimers.HeapTimer.Tick` | code/timer/heaptimer.cpp:99-112 | terminates; fires due timers once each, in the order of their deadlines, removes exactly those, and stops when none is due; aborts exactly when one of its pops leaves the vector and gets an unlucky answer |
| `HeapTimers.HeapTimer.FireFront` | code/timer/heaptimer.cpp:105-110 | one turn that finds the front due |
| `HeapTimers.HeapTimer.GetNextTick` | code/timer/heaptimer.cpp:124-132 | ticks, then answers -1 without timers, else the earliest timer's remaining milliseconds, narrowed to 32 bits; the same exact condition |
| `HeapTimers.TickStep` | code/timer/heaptimer.cpp:104-111 | firing the earliest of the remaining timers keeps fired timers distinct, in order, and apart from what is left |
| `HeapTimers.NoneDue` | code/timer/heaptimer.cpp:106-107 | when the earliest timer is not due, none is, so the break is right |
| `HeapTimers.TickExact` | code/timer/heaptimer.cpp:99-112 | with a fixed clock exactly the timers with less than a millisecond left fire, and all others stay as they were |
| `HeapTimers.TickBetween` | code/timer/heaptimer.cpp:99-112 | with a clock that only goes forward, what is due at the first reading fires, and what fires is due at the last |
| `HeapTimers.MillisLeftIs` | code/timer/heaptimer.cpp:106 | the time left is counted in whole milliseconds of 1000000 nanoseconds, cut off toward zero |
| `HeapTimers.WaitIsTimeLeft` | code/timer/heaptimer.cpp:128 | the wait is the time to the earliest deadline in whole milliseconds, never more and less by under one |
| `HeapTimers.WaitIsInt32` | code/timer/heaptimer.cpp:124-131 | for deadlines too far for that it is narrowed to 32 bits; 25 days come out as a negative wait |
| `HeapTimers.TickStaysIff` | code/timer/heaptimer.cpp:99-117 | a tick survives whatever lies outside the vector if and only if it fires nothing, or had one timer, or leaves three or more, or leaves two and the left child of the last three was not the later one |
| `HeapTimers.SurvivesByLuck` | code/timer/heaptimer.cpp:99-117 | with lucky answers a tick survives; with unlucky ones exactly when it never leaves the vector, and then whatever the answers |
| `HeapTimers.FiresDue` | code/timer/heaptimer.cpp:99-112 | with a fixed clock a tick fires as many timers as are due |
| `HeapTimers.TickStaysByCount` | code/timer/heaptimer.cpp:99-117 | so the numbers of live and of due timers decide, but for the case that leaves two |
| `HeapTimers.TickAbortsAtTwo` | code/timer/heaptimer.cpp:99-117 | with two clients, one of them due, the tick aborts |
| `HeapTimers.WaitBoundsDeadlines` | code/timer/heaptimer.cpp:126-131 | in nanoseconds: the wait is -1 exactly without timers and otherwise past no deadline, if and only if no live timer is overdue by a whole millisecond at the second clock reading; else it is negative with timers live |
| `HeapTimers.WaitBlocksOverdueTimer` | code/timer/heaptimer.cpp:126-131 | a case where the wait is -1, "block", although a timer is overdue |
| `WebServers.WebServer.CloseConn` | code/server/webserver.cpp:125-130 | the client leaves epoll and, if open, is closed and counted out; the timer is left alone |
| `WebServers.WebServer.AddClient` | code/server/webserver.cpp:132-141 | the client is open, counted, registered and timed one timeout from now, overwriting a timer left on its descriptor; does not abort exactly when that stays inside the heap or luck helps |
| `WebServers.WebServer.AcceptOne` | code/server/webserver.cpp:148-156 | with a clock that moves on, exactly when another client has a timer or luck helps |
| `WebServers.WebServer.DealListen` | code/server/webserver.cpp:143-158 | accepts until `accept` fails or the server is full, edge-triggered; at most one client, level-triggered; with a clock that moves on and new descriptors, aborts exactly when the first client accepted finds no timer but its own and luck does not help |
| `ServerLoops.TakesIs` | code/server/webserver.cpp:147-157 | edge-triggered it goes on to a failing `accept` or 65536 clients; level-triggered it accepts one, if it can |
| `ServerLoops.ListenedCount` | code/server/webserver.cpp:143-158 | so many are accepted, from the front; just these are open, counted, registered and timed |
| `ServerLoops.ListenedDeadlines` | code/server/webserver.cpp:132-138 | each at one timeout after its own reading of the clock; other timers stay |
| `WebServers.WebServer.ExtentTime` | code/server/webserver.cpp:172-175 | postpones that client's timer only; the heap stays one when the deadline is not moved forward |
| `WebServers.WebServer.DealRead` | code/server/webserver.cpp:160-164 | postpones the timer and queues one read task |
| `WebServers.WebServer.DealWrite` | code/server/webserver.cpp:166-170 | postpones the timer and queues one write task |
| `WebServers.WebServer.OnRead` | code/server/webserver.cpp:177-187 | closes the client exactly when nothing was read for another reason than EAGAIN; the server stays valid for the next round |
| `WebServers.WebServer.NextTick` | code/server/webserver.cpp:85-90 | the tick, with the callbacks that close clients, and the wait for epoll; the server stays valid for the next round; aborts exactly as `Tick` does |
| `ServerLoops.ListenedTimely` | code/server/webserver.cpp:132-158 | accepting keeps: registered clients open, open clients timed, timers closing their own client and none later than a timeout from now |
| `ServerLoops.ServedTimely` | code/server/webserver.cpp:91-112 | so does handling any event |
| `ServerLoops.ServedIs` | code/server/webserver.cpp:98-109 | a client that hung up is closed and keeps its timer; one that can be read or written gets its deadline moved and a read or write task queued; nothing else changes |
| `ServerLoops.ClosedAllOpen` | code/server/webserver.cpp:125-130 | the callbacks of a tick close exactly the clients of the fired timers: flags, count, registrations and sockets |
| `ServerLoops.TickedTimely` | code/server/webserver.cpp:86-88 | and so does a tick: no open client is left without a timer |
| `ServerLoops.ServedNext` | code/server/webserver.cpp:91-112 | the loop over the events goes on from what one of them has made of the clients |
| `ServerLoops.OneMoreTurn` | code/server/webserver.cpp:85-112 | so do the rounds |
| `WebServers.WebServer.ServeOne` | code/server/webserver.cpp:95-111 | the branches on one event, with the task it queues; `adjust` only postpones, so the heap stays one |
| `WebServers.WebServer.Serve` | code/server/webserver.cpp:91-112 | the loop over the events reported, also when an earlier event of the batch has closed a client: clients, timers, tasks queued, and the reading of the clock it ends at |
| `WebServers.WebServer.Round` | code/server/webserver.cpp:85-112 | one round of the server: clients, timers, tasks queued, the wait, the clock reading it ends at; what it relies on holds again after it |
| `WebServers.WebServer.Start` | code/server/webserver.cpp:81-114 | any number of rounds: clients, timers and tasks queued are what these rounds make of them, one after another |
| `ServerLoops.ClosedAllKeepsTimers` | code/timer/heaptimer.cpp:109-110 | callbacks leave the timer alone, so running them after the tick comes to the same |
| `EventLoop.StepKeepsInv` | code/server/webserver.cpp:81-195 | every step of loop thread, worker or clock, with `Close` in three steps, keeps: open clients timed one timeout after their last activity; open or registered clients timed; timers calling their own client and never later than a timeout from now; the count exact but for double closes and stale flags; untouched clients served |
| `EventLoop.RunKeepsInv` | code/server/webserver.cpp:81-195 | the same in every reachable state |
| `EventLoop.OpenClientsAreTimed` | code/server/webserver.cpp:125-175 | in every reachable state each open client has its one timer at last activity plus timeout, also after its descriptor was reused, and each registered one has a timer; `userCount` is at most MAX_FD and differs from the number of open clients exactly by closes that came second and flags that a late close had left unset |
| `EventLoop.UntouchedIsServed` | code/server/webserver.cpp:125-141 | a client accepted while no close of its descriptor was under way is open, with its socket and registration, until a close of it begins |
| `EventLoop.LastActiveIs` | code/server/webserver.cpp:132-175 | the recorded activity of a client is the clock at its last accept, read or write event in the run |
| `EventLoop.UntouchedAre` | code/http/serverconn.cpp:40-48 | untouched are the clients accepted in the run with no close of their descriptor under way, none begun since |
| `EventLoop.CountsAre` | code/http/serverconn.cpp:40-48 | the two counts of errors are those of the steps of the run that find a flag set, or unset |
| `EventLoop.OpenClientsByRun` | code/server/webserver.cpp:125-175 | deadlines, served clients and `userCount` in the terms of the run alone |
| `EventLoop.ReadsAre` | code/server/webserver.cpp:160-187 | read tasks queued are those taken on by workers and those waiting: none lost, none run twice |
| `EventLoop.AdjustOnlyPostpones` | code/timer/heaptimer.cpp:92-97 | whenever an event is handled its client has a timer, so `adjust`'s assertion holds, and the new deadline is no earlier |
| `EventLoop.NoEarlyTimeout` | code/server/webserver.cpp:132-138 | a timer that fires on an open client does so only after that client's own timeout: no timer of an earlier client on the descriptor closes its successor early |
| `EventLoop.FiredClientIsClosed` | code/timer/heaptimer.cpp:109-110 | when a callback has returned and its timer is about to go, its client is closed |
| `EventLoop.TickLeavesNoOverdueClient` | code/timer/heaptimer.cpp:99-112 | after a tick every open client still has a millisecond left |
| `EventLoop.OneCloserKeepsCount` | code/http/serverconn.cpp:40-48 | if no client is closed by two threads at once, in every reachable state `userCount` is the number of open clients, registered ones are open, and open ones have their socket |
| `EventLoop.TwoClosersMiscount` | code/http/serverconn.cpp:40-48 | a run in which a failed read and a timeout close one client together and the count drops to -1 |
| `EventLoop.LateCloseHitsSuccessor` | code/http/serverconn.cpp:42-45 | a run in which a worker closes the socket of the next client on the descriptor, whose flag then goes stale; the count agrees only because two errors cancel |
| `EventLoop.LateFlagHitsSuccessor` | code/http/serverconn.cpp:42-45 | a run that ends with a client registered and its socket open, but its flag set, without an event of its own |
| `EventLoop.FireOne` | code/timer/heaptimer.cpp:104-111 | reading a timer as due, running its callback and removing it is possible in the runs and has that effect |
| `EventLoop.NextIsEarliest` | code/timer/heaptimer.cpp:104-111 | the k-th timer a tick fires is the earliest of those left |
| `EventLoop.FireMany` | code/timer/heaptimer.cpp:104-111 | the runs contain the first k turns of a tick |
| `EventLoop.TickRefines` | code/server/webserver.cpp:85-90 | what `HeapTimer.Tick` does in one go, the runs can do step by step, with the same end state |
| `EventLoop.ListenRefines` | code/server/webserver.cpp:143-158 | so can they what `DealListen_` does with any number of clients, edge- or level-triggered |
| `EventLoop.CloseRefines` | code/server/webserver.cpp:98-101 | and what `CloseConn_` does for a client that hung up |
| `EventLoop.TouchRefines` | code/server/webserver.cpp:160-175 | and what `DealRead_` and `DealWrite_` do |
| `EventLoop.ServeAllRefines` | code/server/webserver.cpp:91-112 | and a whole batch of events, with its read tasks, ending at the clock reading that `Serve` ends at |
| `EventLoop.RoundRefines` | code/server/webserver.cpp:85-112 | and a whole round: what `WebServer.Round` makes of the loop is the end of a run, no later than the round ends |
| `EventLoop.RoundsRefine` | code/server/webserver.cpp:81-114 | and any number of rounds, from any state between two rounds |
| `EventLoop.StartIsRun` | code/server/webserver.cpp:81-114 | so what `WebServer.Start` makes of a new server is the end of a run, and the invariant of all runs holds after every round |
| `AnnexB.NextCode` | code/rtp/h264parser.cpp:46-56 | the first start code from a position on |
| `AnnexB.H264Parser.FindNextStartCode` | code/rtp/h264parser.cpp:46-56 | the loop and its last test find the first start code, or what the memory behind the file makes of the end |
| `AnnexB.H264Parser.GetNextFrame` | code/rtp/h264parser.cpp:58-79 | returns the frame at the front and moves past it, or 0 or -1 and moves nothing |
| `AnnexB.Fetch` | code/rtp/h264parser.cpp:58-79 | a frame begins with a start code and has at least three bytes, so every call that returns one advances |
| `AnnexB.NextCodeOfTail` | code/rtp/h264parser.cpp:71 | searching from a moved pointer finds what searching the whole from there would |
| `AnnexB.FoundIsFetched` | code/rtp/h264parser.cpp:71-78 | the search, which starts three bytes on, decides the frame |
| `AnnexB.FramesTile` | code/rtp/h264parser.cpp:58-79 | for any input the frames followed by the unread bytes are the file |
| `AnnexB.SlackMatters` | code/rtp/h264parser.cpp:55 | the read behind the file goes unnoticed on every file if and only if the three bytes there complete no start code |
| `AnnexB.MalformedOnlyAtFirst` | code/rtp/h264parser.cpp:65-69 | unless the memory behind the file overhangs (begins with 1 or 0 1), -1 comes exactly for a non-empty file that does not begin with a start code, before any frame |
| `AnnexB.MalformedFirstIff` | code/rtp/h264parser.cpp:55-69 | that -1 comes before any frame holds of every file if and only if that memory does not overhang |
| `AnnexB.CodeBehindUnit` | code/rtp/h264parser.cpp:46-56 | the first start code behind a unit is the next unit's, never one inside it or across its end |
| `AnnexB.UnitBytesAre` | code/rtp/h264parser.cpp:31-38 | a unit of the stream is 0 0 1 or 0 0 0 1 and its bytes |
| `AnnexB.FetchUnit` | code/rtp/h264parser.cpp:58-79 | at the front of a stream the parser finds its first unit, or, if that is the last, the end |
| `AnnexB.AnnexBRoundTrip` | code/rtp/h264parser.cpp:58-79 | iterating over any list of NAL units, with either start code each, gives back every unit with its start code, in order, but the last |
| `AnnexB.LastUnitUnread` | code/rtp/h264parser.cpp:71-74 | the last unit stays unread and the parser reports the end |
| `RtpPackets.FieldsRoundTrip` | code/rtp/rtp.cpp:77-94 | every field can be read back from the packed word |
| `RtpPackets.HeaderRoundTrip` | code/rtp/rtp.cpp:70-118 | decoding the twelve bytes as RFC 3550 draws them gives every field, cut to its width |
| `RtpPackets.StreamHeaderBytes` | code/rtp/rtp.cpp:41-54 | the header of a packet begins 0x80 0x60, then sequence number, timestamp and source, high bytes first |
| `RtpPackets.WireRoundTrip` | code/rtp/rtp.cpp:120-141 | a receiver parses a packet to its header and payload |
| `RtpPackets.MasksAreArithmetic` | code/rtp/h264parser.h:10-16 | the arithmetic of the FU bytes is what the source's masks do |
| `RtpBits.FlagsAreArithmetic` | code/rtp/rtp.cpp:77-91 | the flags that the source shifts, masks and combines are products, remainders and sums of the integer fields |
| `RtpBits.PackedIsFirstWord` | code/rtp/rtp.cpp:77-94 | the 32-bit word the source builds is, as an integer, the one the model encodes |
| `RtpPackets.FragmentsTile` | code/rtp/rtp.cpp:193-220 | fragment payloads put together are the bytes behind the header byte, none lost, repeated or reordered |
| `RtpPackets.FragmentsRoundTrip` | code/rtp/rtp.cpp:193-233 | a fragmented unit is rebuilt byte for byte, its header byte from indicator and FU header |
| `RtpPackets.PayloadsRoundTrip` | code/rtp/rtp.cpp:174-233 | any unit, fragmented or not, is rebuilt if and only if it is not a whole unit of the fragment type |
| `RtpPackets.MistakenForFragment` | code/rtp/rtp.cpp:183-191 | a whole unit of type 28 comes out a byte short |
| `RtpPackets.NthFragment` | code/rtp/rtp.cpp:195-214 | fragment k begins k full fragments behind the header byte |
| `RtpPackets.FragmentCount` | code/rtp/rtp.cpp:174-220 | the number of fragments is the bytes behind the header byte over RTP_MAX_DATA_SIZE, rounded up |
| `RtpPackets.FragmentFlags` | code/rtp/rtp.cpp:174-220 | both FU bytes of every fragment, bit by bit: S and R never set, E only on a last fragment that is not full; fragments are not empty, all but the last are full, every packet fits `rtpData` |
| `RtpPackets.PayloadCount` | code/rtp/rtp.cpp:176-220 | a unit of up to 65494 bytes is one packet, a longer one takes a packet for every 65494 bytes behind its first |
| `RtpPackets.FragmentsByTurns` | code/rtp/rtp.cpp:193-214 | the loop's full fragments followed by the rest are all the fragments |
| `RtpPackets.LastFragment` | code/rtp/rtp.cpp:216-233 | what remains behind them is one fragment with E, or none |
| `RtpStreams.AfterModulo` | code/rtp/rtp.cpp:125 | k packets on, the sequence number is k more modulo 2^16 |
| `RtpStreams.StampModulo` | code/rtp/rtp.cpp:182 | n NAL units on, the timestamp is 3600n more modulo 2^32 |
| `RtpStreams.NumberedOn` | code/rtp/rtp.cpp:120-129 | packet k of a whole stream has the header of the k-th next sequence number and the stream's source |
| `RtpStreams.PacketHeader` | code/rtp/rtp.cpp:41-54 | version 2, no padding, extension, sources or marker, payload type 96, the stream's source and sequence number k + 1 on, modulo 65536 |
| `RtpStreams.StreamSplits` | code/rtp/rtp.cpp:157-234 | the n-th unit's packets stand behind those of the first n units, numbered on from them, all with the timestamp n + 1 steps on |
| `RtpStreams.RunEnds` | code/rtp/rtp.cpp:182 | grouping by equal timestamps ends each group where the unit ends |
| `RtpStreams.StreamCarries` | code/rtp/rtp.cpp:157-234 | a stream is its units' packets, unit by unit, one timestamp step apart |
| `RtpStreams.ReceiveCarried` | code/rtp/rtp.cpp:157-234 | a receiver rebuilds each unit from what came of it, as long as something did, gaps in the sequence numbers or not |
| `RtpStreams.ReceiveStream` | code/rtp/rtp.cpp:157-234 | a receiver rebuilds each unit from exactly its own payloads |
| `RtpSender.RTP.Init` | code/rtp/rtp.cpp:237-245 | the counters and the source start as the code sets them |
| `RtpSender.RTP.MakeRtpHeader` | code/rtp/rtp.cpp:70-118 | stores the twelve bytes of the header and touches no other byte |
| `RtpSender.RTP.PackRTP` | code/rtp/rtp.cpp:120-141 | the front of the buffer is one packet, with the header that `RtpPackets.StreamHeaderBytes` spells out, whatever was there before; the sequence number goes up by one |
| `RtpSender.RTP.StoreFu` | code/rtp/rtp.cpp:197-202 | exactly the two FU bytes change, and the flag set before is gone |
| `RtpSender.RTP.FillFragment` | code/rtp/rtp.cpp:196-202 | the packet of one fragment, with no byte left from an earlier one |
| `RtpSender.RTP.SendFragment` | code/rtp/rtp.cpp:195-214 | one fragment more has been sent behind those before it |
| `RtpSender.RTP.SendFullFragments` | code/rtp/rtp.cpp:193-214 | the loop sends all full fragments, numbered on |
| `RtpSender.RTP.SendFragmented` | code/rtp/rtp.cpp:193-233 | all fragments of a unit are sent, in order |
| `RtpSender.RTP.SendNal` | code/rtp/rtp.cpp:174-233 | a unit's payloads are sent, single or fragmented (an empty unit as one empty packet), under one new timestamp |
| `RtpSender.RTP.NextFrame` | code/rtp/rtp.cpp:160-173 | takes the next frame, or knows how the file ends |
| `RtpSender.RTP.SendFrame` | code/rtp/rtp.cpp:174-233 | what is sent and what is still to be sent stay the same together |
| `RtpSender.RTP.PushStream` | code/rtp/rtp.cpp:143-235 | terminates; sends exactly the stream of the frames; -1 exactly when the parser fails for want of a start code |
| `RtpSender.StreamStep` | code/rtp/rtp.cpp:157-234 | a stream is its first frame's packets and the stream of the others, from the counters they leave |
| `RtpDelivery.PacketFitsIff` | code/rtp/rtp.h:30-36 | a packet fits a UDP datagram over IPv4 if and only if its unit needs no fragments, or it is the last fragment and not full |
| `RtpDelivery.AllPacketsFitIff` | code/rtp/rtp.h:30-36 | all packets of a unit fit if and only if it needs no fragments |
| `RtpDelivery.OneByteTooLong` | code/rtp/rtp.h:30-36 | a unit of 65495 bytes is one packet of 65508, and nothing of it gets through |
| `RtpDelivery.AcceptedWire` | code/rtp/rtp.cpp:187-222 | the packets a socket takes are those of the datagrams that fit |
| `RtpDelivery.FitCarries` | code/rtp/rtp.cpp:187-222 | what a socket takes of a stream is, unit by unit, what it takes of each |
| `RtpDelivery.ReceiveAtMost` | code/rtp/rtp.cpp:182 | a receiver makes no more units than it has a packet of |
| `RtpDelivery.FitFragments` | code/rtp/rtp.cpp:193-233 | less than a full fragment's bytes of a fragmented unit get through |
| `RtpDelivery.UnitGetsThroughIff` | code/rtp/rtp.cpp:174-233 | a unit gets through if and only if it needs no fragments |
| `RtpDelivery.ReceiveFitIff` | code/rtp/rtp.cpp:157-234 | a receiver has all units of a stream again if and only if none needs fragments |
| `RtpEndToEnd.StreamParses` | code/rtp/rtp.cpp:120-141 | a receiver parses a stream's bytes to the datagrams sent |
| `RtpEndToEnd.PacketsBegin` | code/rtp/rtp.cpp:120-141 | every packet of a stream begins 0x80 0x60 and carries the next sequence number and the source |
| `RtpEndToEnd.EndToEnd` | code/rtp/rtp.cpp:157-234 | for every Annex B file of units that can be told from fragments, a receiver of all that `sendto` is given recovers every unit but the last, in order and byte for byte, from any counters |
| `RtpEndToEnd.WireToNals` | code/rtp/rtp.cpp:157-234 | the same from the bytes given to `sendto` |
| `RtpEndToEnd.DeliveredIff` | code/rtp/rtp.cpp:157-234 | behind a socket over IPv4 the receiver recovers them if and only if none of them needs fragments |
| `RtpEndToEnd.AcceptedToNals` | code/rtp/rtp.cpp:157-234 | the same from the bytes the socket takes |
| `RtpFlags.FlaggedIsReceived` | code/rtp/rtp.cpp:193-233 | the receiver by S and E does rebuild a unit whose fragments are flagged as section 5.8 of RFC 6184 asks |
| `RtpFlags.ByFlagsGetsWhole` | code/rtp/rtp.cpp:193-233 | a receiver that starts a unit at S and ends it at E gets exactly the units that need no fragments |
| `RtpFlags.WholeIff` | code/rtp/rtp.cpp:174-178 | and these are all exactly when none needs fragments |
| `RtpFlags.StreamPayloads` | code/rtp/rtp.cpp:157-234 | the payloads of a stream are those of its units, in order |
| `RtpEndToEnd.FlagsRecoverIff` | code/rtp/rtp.cpp:157-234 | so such a receiver of a file gets every unit but the last if and only if none of them needs fragments |
| `RtpEndToEnd.Push` | code/rtsp/rtspresponse.cpp:153-163 | a new session sends exactly the file's stream from the counters of `init` |
| `RtpEndToEnd.SendRTPPacket` | code/rtsp/rtspresponse.cpp:153-163 | playing a file succeeds; every packet begins 0x80 0x60, numbered on from 101, of source 0x5f4df327; the packets given to `sendto` hold every unit but the last; those that a socket over IPv4 takes do if and only if none of these units needs fragments |
| `ThreadPools.TurnConserves` | code/pool/threadpool.h:23-31 | taking a task moves exactly the oldest one from the queue to one thread |
| `ThreadPools.StepConserves` | code/pool/threadpool.h:20-59 | over every step: tasks submitted are those started, in the same order, and those queued; started ones are either running on one thread or done; none twice |
| `ThreadPools.StepPlaces` | code/pool/threadpool.h:20-33 | every thread is about to look, running, asleep or gone, in one of them |
| `ThreadPools.StepKeepsAwake` | code/pool/threadpool.h:20-59 | a thread leaves only a closed, empty pool; while one sleeps every queued task has a thread or a notification coming; after the close notification none sleeps |
| `ThreadPools.RunKeepsInv` | code/pool/threadpool.h:20-59 | all of that in every reachable state |
| `ThreadPools.NoStrandedTask` | code/pool/threadpool.h:52-59 | when all threads of an open pool sleep and no notification is due, the queue is empty |
| `ThreadPools.SubmittedAre` | code/pool/threadpool.h:52-57 | the tasks submitted are the functions given to `AddTask` in the run, in order |
| `ThreadPools.StartedInOrder` | code/pool/threadpool.h:23-27 | and they are started in that order; what is not started is queued |
| `ThreadPools.LessWork` | code/pool/threadpool.h:22-32 | every turn of a thread of a closed pool brings the end nearer |
| `ThreadPools.ClosingStep` | code/pool/threadpool.h:22-32 | the invariant and the closed state stay while the pool drains |
| `ThreadPools.CloseDrains` | code/pool/threadpool.h:41-49 | after the destructor, however threads are scheduled, they stop after a bounded number of steps, and then every submitted task is done and every thread gone |
| `ThreadPools.AllWorkIsDone` | code/pool/threadpool.h:41-49 | over a whole run: after the destructor every function ever given to `AddTask` is run to its end |
| `ThreadPools.CanGoOn` | code/pool/threadpool.h:22-32 | until then some thread can move |
| `BlockDeques.PushConserves` | code/log/blockqueue.h:119-137 | a push at either end keeps pushed = popped + queued + dropped, and the order without push_front |
| `BlockDeques.PopConserves` | code/log/blockqueue.h:160-161 | so does a pop |
| `BlockDeques.CloseConserves` | code/log/blockqueue.h:76-79 | so does Close, which drops what is queued |
| `BlockDeques.StepKeepsInv` | code/log/blockqueue.h:74-164 | every step of any thread keeps the size within capacity, the conservation, and a waker for every sleeper that could go on |
| `BlockDeques.RunKeepsInv` | code/log/blockqueue.h:74-164 | the same in every reachable state |
| `BlockDeques.PushedAre` | code/log/blockqueue.h:119-137 | what went in is what the calls of the run asked for, in the order of their turns |
| `BlockDeques.FifoRun` | code/log/blockqueue.h:119-164 | in a run without push_front and Close items come out in the order they went in, and none is lost |
| `BlockDeques.PushedEnds` | code/log/blockqueue.h:119-164 | what push_front puts in is popped next; what push_back puts in is popped after all that is queued |
| `BlockDeques.NeverAllAsleep` | code/log/blockqueue.h:119-164 | an open deque never locks up: with nobody awake, sleeping consumers face an empty deque, sleeping producers a full one, and not both |
| `BlockDeques.CloseReleasesSleepers` | code/log/blockqueue.h:74-82 | once `Close` has notified, no consumer sleeps that slept before it, and sleeping producers have awake ones for every free slot |
| `BlockDeques.PopSleepsIff` | code/log/blockqueue.h:152-159 | a pop sleeps if and only if the deque is empty and, once closed, the pop has not waited before |
| `BlockDeques.LosesWakeUpIff` | code/log/blockqueue.h:119-164 | a step loses a wake-up if and only if it is a woken pop returning from a closed deque with no other awake consumer for its item |
| `BlockDeques.NoLatePushNoneLost` | code/log/blockqueue.h:119-164 | without pushes on a closed deque it is empty and no wake-up is lost, in every reachable state |
| `BlockDeques.PopAfterCloseSleeps` | code/log/blockqueue.h:152-159 | a run in which a pop called after Close sleeps with nothing left to wake it |
| `BlockDeques.WakeUpLostAfterClose` | code/log/blockqueue.h:119-159 | a run on a closed deque in which an item is queued and its wake-up is lost |
| `SqlConnPools.StepAccounts` | code/pool/sqlconnpool.cpp:43-63 | every step keeps semaphore + threads past it + the push not yet posted = queue length |
| `SqlConnPools.RunAccounts` | code/pool/sqlconnpool.cpp:43-63 | the same in every reachable state, whatever callers return |
| `SqlConnPools.PopFindsConnection` | code/pool/sqlconnpool.cpp:49-54 | a thread that pops never finds the queue empty |
| `SqlConnPools.TestDecides` | code/pool/sqlconnpool.cpp:45-49 | a `GetConn` that finds the queue empty returns at once; any other goes on to wait |
| `SqlConnPools.GivenInOrder` | code/pool/sqlconnpool.cpp:49-61 | connections are given out in the order they came: the initial ones, then those returned, oldest first |
| `SqlConnPools.FreeExactness` | code/pool/sqlconnpool.cpp:58-63 | returning a connection keeps each one in exactly one place if and only if it was out |
| `SqlConnPools.RunExact` | code/pool/sqlconnpool.cpp:43-63 | if callers return only what is out, queued and given-out connections are always the initial ones |
| `SqlConnPools.NeverShared` | code/pool/sqlconnpool.cpp:43-63 | and none is queued twice, held twice, or both |
| `SqlConnPools.VerifyFreesTwice` | code/http/httprequest.cpp:179-238 | a run of `UserVerify`'s calls after which the pool holds one connection twice |
| `SqlConnPools.ConnectionShared` | code/http/httprequest.cpp:179-238 | and one in which two later callers hold it at once |
| `Buffers.Buffer.Retrieve` | code/buffer/buffer.cpp:28-31 | drops bytes from the front |
| `Buffers.Buffer.RetrieveUntil` | code/buffer/buffer.cpp:33-36 | drops the bytes before a position |
| `Buffers.Buffer.RetrieveAll` | code/buffer/buffer.cpp:39-43 | the queue is empty and starts at the front; the storage is zeroed |
| `Buffers.Buffer.RetrieveAllToStr` | code/buffer/buffer.cpp:45-49 | returns the whole queue and empties it |
| `Buffers.Buffer.HasWritten` | code/buffer/buffer.cpp:59-61 | the bytes stored behind the end join the queue; the buffer stays valid if and only if there was room |
| `Buffers.Buffer.Append` | code/buffer/buffer.cpp:63-77 | the queue grows by exactly the bytes |
| `Buffers.Buffer.AppendBuffer` | code/buffer/buffer.cpp:79-81 | the queue grows by the other buffer's; by its own if there is room already |
| `Buffers.Buffer.EnsureWriteable` | code/buffer/buffer.cpp:83-88 | gives the requested space and keeps the queue |
| `Buffers.Buffer.ReadFd` | code/buffer/buffer.cpp:90-113 | appends exactly the bytes read, also those that ran over into the side buffer; a failed read changes nothing |
| `Buffers.Buffer.WriteFd` | code/buffer/buffer.cpp:116-125 | what was taken followed by what is left is the queue as it was |
| `Buffers.Buffer.MakeSpace` | code/buffer/buffer.cpp:136-147 | grows, to the write position plus the request plus one, exactly when the free bytes on both sides are too few, else compacts; gives the space and keeps the queue |
| `Buffers.Buffer.CopyToFront` | code/buffer/buffer.cpp:142 | the overlapping copy moves the readable bytes intact |
| `ServerConns.ServerConn.SetResponse` | code/http/serverconn.cpp:152-164 | what is to be sent is what the buffer held, the header and the file |
| `ServerConns.ServerConn.Account` | code/http/serverconn.cpp:85-98 | after a partial write both vectors and the buffer stand for exactly the rest |
| `ServerConns.ServerConn.PastHeader` | code/http/serverconn.cpp:86-93 | the branch that has finished the header: the rest of the file is left, the first vector and the buffer are empty |
| `ServerConns.ServerConn.WithinHeader` | code/http/serverconn.cpp:94-98 | the branch inside the header: the rest of the header and the file are left |
| `ServerConns.ServerConn.WriteOnce` | code/http/serverconn.cpp:80-98 | sent plus rest stay the response; the rest shrinks by what was taken; `errno` is passed on whenever nothing was |
| `ServerConns.ServerConn.Write` | code/http/serverconn.cpp:77-101 | whatever the kernel does over all turns, sent plus rest stay the response; terminates; goes on after a turn exactly when that took something and the connection is edge-triggered or has more than 10240 bytes left; the result is what the last call took |
| `ServerConns.ServerConn.OnWrite` | code/server/webserver.cpp:197-220 | the connection is registered again, for the next request or the rest, or not at all, exactly when; a level-triggered write that leaves from 1 to 10240 bytes at its first call is never resumed |
| `HttpRequests.SplitIff` | code/http/httprequest.cpp:82-96 | a split at a character undoes joining there, and nothing else splits |
| `HttpRequests.RequestLinePattern` | code/http/httprequest.cpp:81-93 | the request line pattern matches exactly the lines of three tokens, and gives these |
| `HttpRequests.RequestLineIs` | code/http/httprequest.cpp:82 | a request line is method, space, path, space, HTTP/ and version |
| `HttpRequests.PrintIs` | code/http/httprequest.cpp:36-61 | a printed request, character by character |
| `HttpRequests.HeaderPattern` | code/http/httprequest.cpp:95-104 | the header pattern matches exactly name, colon, at most one space and a value of one line |
| `HttpRequests.LineEnd` | code/http/httprequest.cpp:37 | the first CRLF |
| `HttpRequests.HttpRequest.Init` | code/http/httprequest.cpp:16-21 | the initial request |
| `HttpRequests.HttpRequest.ParseRequestLine` | code/http/httprequest.cpp:81-93 | sets the three tokens and the state exactly when the pattern matches |
| `HttpRequests.HttpRequest.ParsePath` | code/http/httprequest.cpp:67-79 | maps the path as `HttpRequests.MapPathIs` spells out |
| `HttpRequests.MapPathIs` | code/http/httprequest.cpp:9-11 | the root becomes /index.html, each of the six pages itself with .html, every other path stays |
| `HttpRequests.HttpRequest.ParseHeader` | code/http/httprequest.cpp:95-104 | enters the header, or goes on to the body |
| `HttpRequests.HttpRequest.ParseBody` | code/http/httprequest.cpp:106-111 | takes the line as the body and finishes |
| `HttpRequests.HttpRequest.ParsePost` | code/http/httprequest.cpp:119-136 | path, body and header after the body line, as `HttpRequests.WithBodyIs` spells out |
| `HttpRequests.WithBodyIs` | code/http/httprequest.cpp:106-136 | a form on the login or register page leads to the welcome or the error page by the answer on the user; any other body is the line, and the path stays; a POST without a content type gets an empty one |
| `HttpRequests.HttpRequest.ParseOne` | code/http/httprequest.cpp:38-58 | one turn by state; a bad request line changes nothing |
| `HttpRequests.HttpRequest.Parse` | code/http/httprequest.cpp:30-65 | terminates; request, unread bytes and result are those of the line-by-line reading of the buffer |
| `HttpRequests.RequestLineParsed` | code/http/httprequest.cpp:41-46 | a printed request line is read as its tokens with the path mapped |
| `HttpRequests.FieldsParsed` | code/http/httprequest.cpp:47-52 | printed header lines are entered one by one |
| `HttpRequests.BlankLineParsed` | code/http/httprequest.cpp:47-52 | the blank line finishes the request exactly when nothing follows |
| `HttpRequests.RequestRoundTrip` | code/http/httprequest.cpp:30-104 | the reading of any printed request without a body ends in FINISH, consumes everything and recovers method, path as mapped, version and headers |
| `HttpRequests.ParseOkIff` | code/http/httprequest.cpp:41-44 | `parse` succeeds exactly when the first line is a request line |
| `HttpRequests.UnfinishedParsed` | code/http/httprequest.cpp:36-64 | a request whose blank line has not arrived is consumed with success in a state other than FINISH |
| `HttpRequests.ParseText` | code/http/httprequest.cpp:30-65 | the parser over a buffer that a text has arrived in |
| `HttpRequests.ParsePrinted` | code/http/httprequest.cpp:30-104 | so parsing a printed request in a buffer returns true, empties the buffer and has the request, its path mapped page by page |
| `HttpRequests.FieldsFound` | code/http/httprequest.cpp:99 | every header is found under its name, unless a later one has the same |
| `HttpRequests.BodyRoundTrip` | code/http/httprequest.cpp:53-61 | bytes behind the blank line: their first line becomes the body, and leaves the buffer only if CRLF ends it |
| `HttpRequests.BodyConsumedIff` | code/http/httprequest.cpp:53-61 | the buffer ends empty if and only if one CRLF ends the body and nothing follows |

## Left out

- Sockets, epoll, `mmap`, `usleep`, the clock and MySQL: their answers are parameters of the methods and steps.
- Losses on the way: what is proved is about what `sendto` is given and which packets it must refuse for their size. A socket descriptor of 0, on which the source would send single packets and no fragments, is treated as closed.
- Re-arming of one-shot epoll events (`OnProcess`, `ModFd`): the runs allow any event on a registered descriptor, which is more than epoll gives.
- Interleavings inside `AddClient_`: accepting a client is one step of the runs; so are `isClose_ = true` and `userCount--` together.
- `HeapTimers.HeapTimer.Tick`: records the callbacks instead of running them in the loop; `ServerLoops.ClosedAllKeepsTimers` and `EventLoop.TickRefines` connect this with callbacks run between the removals.
- `WebServers.WebServer.Round`: when it aborts is stated exactly for its tick and for each batch of clients (a batch at one clock reading excepted), not for both together.
- `EventLoop.RoundsRefine`: rounds follow one another without worker steps in between; `EventLoop.RoundRefines` starts from any reachable state between rounds.
- An empty file: `mmap` fails and the source's assertion with it, so a parser of one cannot be made.
- `HeapTimers.HeapTimer.Add`: deadlines are unbounded integers, so the overflow of the clock's 64-bit nanoseconds is not modelled; nor is a heap of more than 2^63 nodes.
- `OnWrite_` in the runs beyond queueing its task: it closes no client.
- Concurrency primitives are state machines on values, since their methods are meant to interleave; a step is what a thread does under the lock.
- Timed `BlockDeque::pop` and `clear`: the first may consume a notification and time out, the second frees space without notifying; both would break the wake-up property. `front`, `back`, `size` and the like only read.
- `SqlConnPool::ClosePool`, and null connections that `Init` queues when connecting fails; the unlocked `empty()` is taken as an atomic read.
- `ThreadPools.CloseDrains`: takes a task's own work as one step, so tasks that throw or never return are not covered.
- `Buffers.Buffer.AppendBuffer`: for a buffer appended to itself without room, which reads storage that has been moved or freed, only validity is stated.
- Pointers into a `Buffer` or the mapped file are positions; the vectors' `int` total is narrowed as in the source.
- Writes of other code to `errno` between two calls of `write`.
- `ServerConn::init` on a reused connection, RTSP responses through the same vectors, and `HttpResponse`, whose header text is a parameter.
- `UserVerify`, `ParseFromUrlencoded_` and `post_`: database access and a percent decoder; their results are the parameter `Post`.
- `std::regex`: the two patterns are written as splits, characterised by `HttpRequests.RequestLinePattern` and `HttpRequests.HeaderPattern`.
- RTSP requests and SDP text, `Log`, `codetimer`, `Epoller`, configuration, address utilities and the benchmark client.
