# Verified model of the tll HTTP channels

This project models the three channel libraries of the repository in Dafny and proves what they
keep, what they conserve and where they fall short of their documentation:

* the WebSocket publishing node of the uWebSockets server: one bounded message ring with an
  iterator per subscriber (`data_ring.dfy`, `ring_layout.dfy`, `pub_log.dfy`, `pub_lag.dfy`, `ws_pub.dfy`,
  `session_order.dfy`);
* the server's route tables and the registration of nodes (`text_order.dfy`, `routes.dfy`,
  `registry.dfy`);
* the curl client: header blocks, the transfer buffers and session life, the channel that
  multiplexes sessions by address, and the pool of socket channels behind the multi handle
  (`headers.dfy`, `transfer.dfy`, `multiplex.dfy`, `address_view.dfy`, `curl_channel.dfy`,
  `socket_pool.dfy`, `curl_multi.dfy`);
* server-sent events: framing and the one-frame slot of a session (`event_stream.dfy`,
  `event_slot.dfy`).

`common.dfy` holds the shared types. `dafny verify dfyconfig.toml` verifies the whole project.

## How it is built

Each stateful component comes twice. A *state machine on values* (`PubLog.Step`, `Transfer.Next`,
`Multiplex.Step`, `SocketPool.Step`, `Registry.Step`, `EventSlot.Step`) says what every event does;
the main results are lemmas about all runs of these machines. So that a machine and its class cannot
both be wrong in the same way, what each kind of event achieves is also stated without the machine:
by the events alone (`GoneIffDropped`, `OpenIffEventsSaySo`, `BoundIffServed`, `AddressView`) or by a
ledger of what they say (`PoolIsItsLedger`). *Classes* with the fields of the
source and methods with its loops (`WSPub.Node`, `CurlChannel.Session` and `.Channel`,
`CurlMulti.Multi`, `Registry.Server`, `EventSlot.Session`, `DataRings.DataRing`) are proved to do
exactly that: the `ensures` of each method equates its effect with one step of the machine, on
objects, arrays and maps that are walked while they are changed. A class that keeps a ghost `model`
field ties it to its real fields in `Valid()`.

The ring is a type of the tll library, which is not part of this model. `DataRings` states what its
call sites rely on (messages leave in order, a bound on their number, contiguous placement in a byte
buffer, iterators compared by the cell they denote) and gives an instance over a circle of cells.
Of the placement rule the proofs about the log use only that it depends on nothing but the ring, that
stored messages stay apart (`AppendValid`), and that an empty ring takes a message of half the buffer
(`EmptyRingFits`). What the rule means for subscribers is said in slots and bytes alone (`PubLag`): it
follows from the messages lying one after the other and wrapping at most once (`RingLayout`).

Strings of C++ are sequences of octets. Session addresses wrap at 2^64 (`PubLog.NextAddr`); the
results that need fresh addresses say so.

Assumed of the environment: libcurl passes back for a descriptor the pointer last assigned to it and
forgets it after a remove callback; it calls back only into sessions of the channel; uWebSockets
runs the close handler of a socket inside `close()`, reports drains only for live sessions, and its
answers about buffered data are arbitrary (`blocked`, `stuck`, `WebSocket.Send`). Whether curl
accepts a handle, a URL parses, a message is long enough, a socket channel can be made or a write
succeeds are parameters of the events. User callbacks do not call back into the channel.

## Where the code does not do what one might expect

* With `ring-size=0`, which the node accepts, a post pops an empty ring. `RoomCanBeMade`: the
  pop-and-retry loop ends with the message stored exactly if there is at least one slot.
* A subscriber that lags is never helped by a post, even when its socket is empty: over every run
  in which its drains do not catch up with what is published it moves on by its drains alone
  (`LaggardsMoveByDrains`). `LagsWithEmptySocket` is such a session.
* The wildcard lookup is not a longest-prefix match when one wildcard extends another: with `/a*`
  and `/a/b*` registered, `/a/c` is turned away (`NestedWildcardsFail`). `ProbeExact` and
  `TableExact` say exactly for which paths and which tables it is. `doc/uws.rst` promises only that
  exact paths come first, which holds (`ServedByOpenNode`).
* A session that is ended twice before it is reaped, for instance by the user and then by curl,
  gives out its partial last message again each time (`WholeTransfer`, `ExactTransfer`,
  `DeliveryUntilReaped`; `EndedTwice` and `EndedByUserAndCurl` are runs in which one byte becomes
  two).
* `doc/curl.rst` says that each request produces a Connect and a Disconnect. A response without a
  body produces no Connect: `ConnectIffBody` says when there is one. There is one Disconnect for
  every end that is not skipped (`DisconnectPerEnd`), so none for a request that only the user ends.
* A header whose value holds a line end is read as two (`LineEndMakesTwo`), and one that holds a NUL
  is cut off there, since the line is handed on as a C string (`NulCutsOff`); `HeaderRoundTrip` says
  exactly which headers come back as they were.
* An upload that is fed by later posts ends early if curl asks while all that was posted has been
  handed on: `read` then answers 0, which curl takes for the end of the upload, and what is posted
  afterwards is kept but never sent (`UploadEndsIffAllSent`, `PostedTooLate`).
* Server-sent events carry a message unchanged exactly if it has no line break in it
  (`FramingRoundTrip`).

## Model

| member | source | states |
|---|---|---|
| DataRings.EmptyRingFits | src/uws.cc:294-295 | an empty ring with at least one slot takes any message of at most half the buffer, wherever its write point is: the reason for the admission check |
| DataRings.RoomCanBeMade | src/uws.cc:294-312 | popping can make room for an admissible message, without popping an empty ring, if and only if the ring has a slot |
| DataRings.EvictPopsTheLeast | src/uws.cc:297-312 | the pop-and-retry loop removes the shortest prefix after which the message fits |
| DataRings.AppendValid | src/uws.cc:298-300 | storing a message never overlaps a stored one and keeps all within the buffer |
| RingLayout.AppendLaid | src/uws.cc:298-300 | stored messages stay one after the other, wrapping at most once, and only where the end of the buffer was too short |
| RingLayout.RoomInHalf | src/uws.cc:294-300 | a ring with a free slot takes a message if it and the stored ones are together at most half the buffer, wherever they lie |
| DataRings.DataRing.PushBack | src/uws.cc:298-300 | a push succeeds exactly if a slot and a contiguous place are free, and then appends; otherwise nothing changes |
| DataRings.DataRing.PopFront | src/uws.cc:301-302 | a pop drops the oldest message and moves no other message's cell |
| DataRings.DataRing.IteratorsCompare | src/uws.cc:309-316 | iterators into the live window are equal exactly if they denote the same message number, and equal begin or end exactly if they denote the oldest or the next message |
| DataRings.DataRing.MessageAt | src/uws.cc:354-355 | reading through an iterator gives the message with its number, and stepping it gives the iterator of the next |
| PubLog.Run | src/uws.cc:292-359 | in every run the ring holds exactly the end of the published log and every live session's next message lies in that window or just past it |
| PubLog.SentIsASliceOfTheLog | src/uws.cc:292-359 | for every run and every connect in it: a session still alive has been sent exactly the published messages from its connect up to its next one, without gap, repetition or reordering |
| PubLog.LogIsPublished | src/uws.cc:292-295 | the log is the sequence of admitted posts: those of at most half the buffer |
| PubLog.PostClosesOnlyOfNecessity | src/uws.cc:301-311 | a post closes a session if and only if no amount of popping that spares its unsent messages makes room |
| PubLag.NothingIsPoppedInTheFirstRound | src/uws.cc:275-312 | in every run that publishes no more messages than the ring has slots and no more bytes than it has, nothing is popped and a session is gone only if somebody closed it |
| PubLag.WithinHalfIsKept | src/uws.cc:296-312 | from every reachable state: a session that nobody closes outlives every run in which its lag and all that is published are together no more messages than slots and at most half the buffer |
| PubLag.LagIsBounded | src/uws.cc:296-312 | no live session ever lags by more messages than there are slots or more bytes than the buffer has |
| PubLag.TooFarBehindIsClosed | src/uws.cc:296-312 | a lagging session for which a post would exceed either is closed by it |
| PubLog.LaggardsMoveByDrains | src/uws.cc:314-358 | over every run in which the drains of a lagging session do not catch up with what is published, it advances by exactly one message for each drain of its empty socket, whatever is posted, and its lag is the old one plus what was published minus those drains |
| PubLog.TooFewDrains | src/uws.cc:314-358 | in particular in every run with fewer drains than the messages it lags behind |
| PubLog.LagsWithEmptySocket | src/uws.cc:314-318 | a reachable session that lags with an empty socket: blocked at the first post, it is alive after the second and has been sent neither |
| PubLog.SmoothSessionGetsEverything | src/uws.cc:296-318 | a session that is never blocked and never closed is never evicted and is sent everything published after its connect |
| PubLog.AddressesAreFresh | src/uws.cc:194-197 | until the counter wraps, sessions get the addresses 1, 2, 3 and so on, and live ones never exceed the last given |
| PubLog.ClosedForGood | src/uws.cc:549-555 | a closed session never reappears under its address |
| WSPub.PopCoupled | src/uws.cc:301-310 | the sessions standing at the popped cell are exactly those whose next message was popped, and all others stand right in the ring that is left |
| WSPub.Node.Connect | src/uws.cc:338-344 | a new socket starts at the end of the ring, gets the next address and is filed under it: one connect of the log |
| WSPub.Node.Post | src/uws.cc:292-320 | refuses too large messages; otherwise does to ring, map and sockets exactly what the log machine does: evicts, closes each evicted session once, hands the message to the caught-up, unblocked ones |
| WSPub.Node.SocketsCarryTheLog | src/uws.cc:346-358 | in every valid state a live socket has been sent its slice of the log, stands at its next message and is filed under its own address |
| WSPub.Node.MakeRoom | src/uws.cc:296-312 | the retry loop terminates with the message stored; the sessions left are those whose next message is still in the ring, and the iterator to the old end denotes the new message |
| WSPub.Node.CloseAt | src/uws.cc:304-311 | closes, in address order and each once, exactly the sessions at the given iterator, although each close erases the entry being visited |
| WSPub.Node.EvictOne | src/uws.cc:301-311 | one pop and the closes it causes leave every surviving session in step with the model |
| WSPub.Node.OfferNewest | src/uws.cc:314-318 | the sessions standing at the old end are offered the new message, no other session is touched |
| WSPub.Node.Writeable | src/uws.cc:346-358 | sends the next message and advances, unless data is buffered or the session is at the end |
| WSPub.Node.Drain | src/uws.cc:667-673 | one drain is one step of the log machine |
| WSPub.Node.Register | src/uws.cc:535-544 | the address counter advances, the socket is inserted unless the address is taken, and the connect is reported |
| WSPub.Node.Disconnect | src/uws.cc:549-567 | erases the session unless the node is closing, and reports it |
| WSPub.Node.CloseSocket | src/uws.cc:310-310 | closing a socket runs its close handler |
| WSPub.Node.PostDisconnect | src/uws.cc:322-329 | a posted disconnect removes the session, or is refused if there is none; it is reported twice when ending the socket runs its handler |
| WSPub.Node.OpenNode | src/uws.cc:506-513 | the ring is emptied and the node enters the route table of its kind of path; if the key is taken it fails and the tables stay as they were |
| WSPub.Node.CloseNode | src/uws.cc:516-523 | closing the node closes and reports every session once in address order, with the map unchanged during the walk and empty after it, and takes the node out of its route table if the entry there is its own |
| SessionOrder.LowerBound | src/uws.cc:304-306 | the iterator to the first key at or above a bound |
| TextOrder.Between | src/uws.cc:90-94 | every string between a prefix of a path and the path starts with that prefix |
| Routes.FoundIsLongest | src/uws.cc:90-95 | whatever wildcard the lookup finds is the longest registered prefix of the path |
| Routes.ProbeExact | src/uws.cc:90-96 | the lookup is a longest-prefix match for a path if and only if no wildcard that extends the longest match sorts below the path |
| Routes.TableExact | src/uws.cc:90-96 | a wildcard table answers every path right if and only if it is gapless |
| Routes.PrefixFreeTables | src/uws.cc:90-96 | in particular if no wildcard properly extends another |
| Routes.NestedWildcardsFail | src/uws.cc:90-96 | the family of two nested wildcards for which the lookup finds nothing although one matches |
| Registry.Server.NodeLookup | src/uws.cc:85-97 | an exact key first, then one predecessor probe among the wildcards |
| Registry.Server.NodeAdd | src/uws.cc:69-108 | adds under the prefix in the table of the node's kind of path, or fails if the key is taken |
| Registry.Server.NodeRemove | src/uws.cc:77-122 | removes only the entry that holds this very node |
| Registry.AddMeans | src/uws.cc:99-108 | an entry is added exactly if no entry has its key, and no other comes or goes |
| Registry.RemoveAnswers | src/uws.cc:110-122 | a removal succeeds exactly if the entry is there for this very node, and the error tells a missing key from that of another node |
| Registry.Normalise | src/uws.cc:496-502 | a prefix is rooted, and adding the star of a wildcard gives back the rooted host |
| Registry.SamePrefix | src/uws.cc:496-502 | two hosts share a table entry exactly if they are equal up to the leading slash |
| Registry.OpenIffEventsSaySo | src/uws.cc:506-523 | after any run of opens and closes who is open is told by these alone: an open of a closed node succeeds exactly if no open node has the same host up to the leading slash, a close always succeeds, and neither touches another node |
| Registry.OneOwner | src/uws.cc:99-122 | after any run of opens and closes the tables hold exactly the open nodes, and no two open nodes share a kind of path and a prefix |
| Registry.FailedCloseRemovesNothing | src/uws.cc:516-522 | closing a node whose open lost to another removes nobody's entry |
| Registry.ServedByOpenNode | src/uws.cc:85-97 | after any run a path is served by the open node registered for it, or else, if at all, by the open wildcard that matches most of it |
| Registry.TurnedAwayExactly | src/uws.cc:85-97 | and it is turned away if and only if no open node has its very path, and either no open wildcard matches it or another open wildcard hides the best match |
| Headers.HandleLine | src/curl.cc:721-753 | what one header line does to the map, and the answer to curl |
| Headers.Lower | src/curl.cc:679-690 | ASCII letters are lowered, all else stays |
| Headers.LoweredOctets | src/curl.cc:679-690 | by code points: 65 to 90 move up by 32, so none is left, and every other octet is kept |
| Headers.TrimmedAreSpaces | src/curl.cc:743-747 | what is cut off a value is all its leading spaces and nothing else |
| Headers.StatusLineClears | src/curl.cc:732-737 | a line that starts with HTTP/ empties the map |
| Headers.FieldLineIsKept | src/curl.cc:739-751 | a line of a name, a colon, any spaces and a value enters the lowered name with the value unless the name is there |
| Headers.OnlyLastBlockIsKept | src/curl.cc:732-751 | every entry of the parsed map is the first field of its name after the last status line |
| Headers.FirstFieldWins | src/curl.cc:732-751 | the first field of each name after the last status line is in the map with its value |
| Headers.MergeIsRightBiased | src/curl.cc:620-622 | request headers are the channel's defaults overridden by those of the Connect message, the last of a name counting |
| Headers.CutWire | src/curl.cc:492-493 | headers without line ends, each printed up to its first NUL, one after the other, are delivered line by line as they were printed |
| Headers.HeaderRoundTrip | src/curl.cc:492-493 | headers in any order come back from the wire, with lowered names, if and only if no name has a colon, no value starts with a space, none of either has a line end or a NUL, some spelling of each name comes after every name that reads as a status line, and names equal up to case have equal values |
| Headers.DistinctHeadersReturn | src/curl.cc:492-493 | so headers distinct up to case come back if and only if each is plain and none starts as a status line |
| Headers.ParsedIsPlain | src/curl.cc:721-753 | whatever text is received, parsed names have no colon, parsed values no leading space, neither a line end, and neither a NUL unless there is one in the text |
| Headers.LineEndMakesTwo | src/curl.cc:492-493 | the family of values with a line end in them that arrive as two headers, unless a NUL before it cuts them off |
| Headers.NulCutsOff | src/curl.cc:492-493 | the family of values with a NUL in them that arrive as what comes before it |
| Transfer.RechunkConserves | src/curl.cc:828-850 | one write loses nothing, keeps less than a message buffered, and gives out at most two messages, none smaller than recv-size |
| Transfer.ReceiveConservation | src/curl.cc:820-851 | before the end, for every sequence of events: bytes given out plus bytes buffered are the bytes received |
| Transfer.WholeTransfer | src/curl.cc:820-861 | over a whole life: the bytes given out are the bytes received, followed by the last partial message once more for every end after the first |
| Transfer.ExactTransfer | src/curl.cc:853-861 | so nothing is duplicated if and only if there is one end or the buffer was empty at the first |
| Transfer.EndedTwice | src/curl.cc:853-861 | the shortest run in which it is: of one byte received, two are given out |
| Transfer.WholeTrace | src/curl.cc:820-883 | all that the user sees of a whole life: what came before the first end, then at every end the partial message and, unless skipped, a report, and nothing else |
| Transfer.MessageCount | src/curl.cc:834-845 | with recv-size L, k data messages before the end take k times L of the bytes received, and what is buffered comes on top, from whatever point the session is followed |
| Transfer.SeenCount | src/curl.cc:820-845 | in particular from its start, all that the user sees but the one Connect takes at least L received bytes each |
| Transfer.TraceOfTransfer | src/curl.cc:768-851 | up to the end the user sees nothing, or one Connect carrying the last header block before the first body data and then only data messages of at least recv-size |
| Transfer.ConnectIffBody | src/curl.cc:820-883 | in any run there is exactly one Connect if body data came before the first end, and none otherwise, also after further ends and late data |
| Transfer.DisconnectPerEnd | src/curl.cc:853-883 | in any run there is one Disconnect for every end that is not skipped, and no other |
| Transfer.ClosingRepeats | src/curl.cc:825-826 | a closing session gives the user exactly its buffer, if there is one, and a report, unless skipped, at every further end, and nothing at any other event |
| Transfer.StatesMoveForward | src/curl.cc:768-770 | states only move from Opening to Active to Closing, and are Closing exactly from the first end on |
| Transfer.UploadConservation | src/curl.cc:755-766 | curl has been handed the first roff bytes of what was posted, in order, and roff never exceeds it |
| Transfer.UploadEndsIffAllSent | src/curl.cc:755-766 | in any run a request for upload data is answered with none if and only if all that was posted so far has been handed on |
| Transfer.PostedTooLate | src/curl.cc:757-759 | after that answer, if curl asks no more, later posts are kept and never handed on: the upload is complete if and only if there are none |
| CurlChannel.Session.Write | src/curl.cc:820-851 | a write announces the response if it is the first, regroups the data and always takes all of it |
| CurlChannel.Session.Regroup | src/curl.cc:828-848 | fill, flush and recursive write amount to the closed form of regrouping |
| CurlChannel.RechunkFull | src/curl.cc:834-848 | filling the buffer once and writing the rest again is regrouping the whole |
| CurlChannel.Session.Read | src/curl.cc:755-766 | hands out the next bytes, at most as many as asked |
| CurlChannel.Session.Header | src/curl.cc:721-753 | a header callback parses its line |
| CurlChannel.Session.Finalize | src/curl.cc:853-883 | flushes the buffer, reports the end unless told to skip it, and asks for a reaping pass |
| CurlChannel.Channel.Open | src/curl.cc:536-551 | single mode starts its one session at address 0 |
| CurlChannel.Channel.Create | src/curl.cc:568-586 | a session is filed only under a free address and if curl takes it |
| CurlChannel.Channel.PostData | src/curl.cc:628-652 | starts a session in data mode, feeds the addressed one otherwise, fails if there is none |
| CurlChannel.Channel.PostConnect | src/curl.cc:600-625 | the checks of a Connect message in order, with their errors |
| CurlChannel.Channel.PostDisconnect | src/curl.cc:593-599 | ends the addressed session without a report |
| CurlChannel.Channel.OnBody | src/curl.cc:500-502 | a body callback reaches its session and no other |
| CurlChannel.Channel.OnDone | src/curl.cc:235-246 | a finished transfer ends its session with curl's code |
| CurlChannel.Channel.Process | src/curl.cc:655-675 | the pass erases exactly the ended sessions while it walks the map, clears the pending flag, and with autoclose closes an empty channel |
| Multiplex.NoLostReaping | src/curl.cc:853-858 | in every run a pass is pending exactly if there is an ended session |
| Multiplex.AutocloseWhenEmpty | src/curl.cc:671-674 | a pass closes the channel exactly if autoclose is set and no running session is left |
| Multiplex.Answers | src/curl.cc:588-652 | the result code of every post, case by case: which mode, address and check decides |
| Multiplex.ProcessFreesAddresses | src/curl.cc:568-670 | a pass keeps a session exactly if it has not ended, unchanged; any data post or Connect that could start one is refused before and accepted after its session is reaped |
| Multiplex.AddressIsUsableIffFree | src/curl.cc:568-670 | after every run a start is accepted exactly if its address is free: never taken, or reaped since; whatever happened at other addresses. A refused one changes nothing |
| Multiplex.AddressIsHeldUntilReaped | src/curl.cc:568-670 | from start to reaping every start at the address is refused, and it is usable after the first pass that follows the end |
| Multiplex.NotReapedIsKept | src/curl.cc:655-670 | that no pass follows the end is exactly that there is a session at the address all along |
| Multiplex.RefusedPostsDoNothing | src/curl.cc:588-652 | a post that fails changes nothing, and no post adds or removes a session at another address |
| Multiplex.Isolation | src/curl.cc:588-652 | what happens at an address and is given out for it is what would happen if the events of all other addresses were struck from the run |
| Multiplex.SessionIsATransfer | src/curl.cc:486-507 | a session among many is the transfer of its own events |
| Multiplex.UploadIsolation | src/curl.cc:637-652 | in every mode and under any interleaving, the bytes handed to curl for a session are the first of its body and of what was posted to its address |
| Multiplex.StartedFresh | src/curl.cc:600-641 | an accepted data post in data mode leaves a session that has its message to upload, an accepted Connect message one that has nothing, both just opening, and no other session changes |
| Multiplex.StartedUpload | src/curl.cc:600-652 | and over every run curl is handed the first bytes of that message, or after a Connect of what is posted to the address |
| Multiplex.DeliveryUntilReaped | src/curl.cc:228-248 | in every mode and under any interleaving, until a session is reaped its data messages add up to the body data received before its first end, and the last partial message again for every further end; they are exactly the body if and only if there is no further end or nothing was buffered |
| Multiplex.DeliveryIsolation | src/curl.cc:228-248 | so when curl reports a transfer done that nothing ended before, its data messages add up to the body data received for it |
| Multiplex.StartedDelivery | src/curl.cc:600-652 | the same from the post that starts a session |
| Multiplex.EndedByUserAndCurl | src/curl.cc:593-599 | a run of a single-mode channel in which the user ends the session, curl then reports it done, and one byte becomes two |
| AddressView.SeenAtAddress | src/curl.cc:486-507 | under any interleaving, the user of an address sees nothing until its body data comes, then one Connect with the last header block curl had passed on for it, and then data messages of at least recv-size |
| AddressView.ReportsAtAddress | src/curl.cc:593-599 | in every mode, a session reports exactly the ends that curl reports, with their codes, and none of the user's |
| AddressView.GivenAtEnd | src/curl.cc:593-599 | a disconnect by the user gives out what is buffered and no report, an end by curl the same and one report |
| AddressView.HandedOnRequest | src/curl.cc:755-766 | in every mode and run, asked for upload data the channel hands curl the next bytes of the body and of what was posted to the address, as many as asked for or as there are |
| SocketPool.PoolIsSafeAndBounded | src/curl.cc:211-222 | in every run: curl's pointers lead to live sockets bound to that descriptor and polled as curl asked, no descriptor is bound twice, the pool never exceeds the peak number of descriptors, and without a pending pass exceeds the current one by at most five |
| SocketPool.StepInv | src/curl.cc:327-370 | every callback and pass keeps that agreement |
| SocketPool.RemoveLetsGo | src/curl.cc:330-335 | a remove leaves no socket bound to its descriptor, makes the one that was idle, changes no other, and asks for a pass |
| SocketPool.PassTidiesUp | src/curl.cc:211-225 | after a pass nothing is pending and at most five sockets are idle; every bound one and the first five idle ones remain |
| SocketPool.PoolIsItsLedger | src/curl.cc:327-370 | after any run the pool is what a ledger of the callbacks says: one socket per descriptor held, polled as last asked, so many idle ones, and whether a pass is due |
| SocketPool.BoundIffServed | src/curl.cc:327-370 | the descriptors bound are exactly those served at some time and not removed since |
| SocketPool.KeptAre | src/curl.cc:214-222 | a pass keeps, in order, every bound socket and an idle one exactly if fewer than five idle ones come before it |
| SocketPool.WatchIsServed | src/curl.cc:337-358 | a descriptor is served unless a socket must be made and cannot; one is made only if none is idle |
| CurlMulti.Multi.OnWatch | src/curl.cc:337-369 | the callback for polling: reuse, creation, binding and the new poll mask |
| CurlMulti.Multi.OnRemove | src/curl.cc:330-335 | the callback for removal: the socket becomes idle and a pass is requested |
| CurlMulti.Multi.HeldSocket | src/curl.cc:327-332 | the pointer curl passes back is the pool element bound to that descriptor |
| CurlMulti.Multi.Trim | src/curl.cc:214-222 | counting idle sockets and erasing from the list being walked keeps exactly the right ones |
| CurlMulti.Multi.Process | src/curl.cc:211-226 | the pass, after which nothing is pending and curl's pointers are still live |
| EventStream.Copy | src/channel.cc:191-203 | fills a fresh buffer with the frame |
| EventStream.FramingRoundTrip | src/channel.cc:191-203 | a client recovers exactly the messages from any concatenation of their frames if and only if none has a line break (section 9.2.6 of the WHATWG HTML Living Standard) |
| EventStream.BrokenWeighsLess | src/channel.cc:198-201 | a message with a line break arrives short |
| EventSlot.WrittenAreTaken | src/channel.cc:443-450 | of every session, live or dropped, the frames written are those of the posts that were the latest when the socket could next be written, in order and each once; the last write of a session that was ended counts, a failed write does not |
| EventSlot.GoneIffDropped | src/channel.cc:443-450 | a session is gone exactly if some write came after the user had asked to drop it, or failed with a post to write |
| EventSlot.HeardEndsAtTheDrop | src/channel.cc:443-450 | of a dropped session exactly the events up to the first such write count, with that write unless it failed |
| EventSlot.SlotHoldsLatest | src/channel.cc:640-650 | the slot holds the latest post not yet written |
| EventSlot.ClientSeesTakenPosts | src/channel.cc:443-450 | and the client makes exactly those posts of the stream, whether or not the session was dropped, if and only if they have no line breaks |
| EventSlot.Session.Post | src/channel.cc:640-650 | a post overwrites the slot |
| EventSlot.Session.Writable | src/channel.cc:443-451 | a writable socket gets the pending frame, and a session that fails or was ended is dropped |

## Left out

- The event loops, timers, file descriptors and library handles, `src/uws-epoll.c`, `src/ev-backend.c`, and the release of curl and URL handles: only their callbacks are events here.
- Callbacks of the user that post into the channel from inside a callback.
- Whether a lagging subscriber ever catches up: a drain sends one message and further drains depend on uWebSockets.
- Late close events of a socket that was ended before its node was closed and opened again: addresses start anew there.
- WSPub.Node.constructor: requires at least one slot, and so does opening the node, although the source accepts `ring-size=0`, because the first post then pops an empty ring; `RoomCanBeMade` states this boundary.
- The HTTP and plain WebSocket nodes, which share the session map of the publishing node and answer one message at a time.
- The session map of server-sent events: one session is modelled.
- Closing the whole server, which closes only the nodes of exact paths, and the order of destruction when the multi handle closes.
- The encoding of control messages (`src/http-scheme-binder.h`), the content length and status they carry, `offset_ptr_resize`, HTTP method names and URL parsing.
- The order in which sessions are sent a new message: each socket's own sequence is modelled, not the interleaving between sockets.
- Headers.Cut: takes only CR LF for a line end; section 2.2 of RFC 9112 also lets a recipient take a bare LF, which is not modelled.
- Headers.Print: what libcurl does with the header lines it is given (it may leave out one with a blank value) is not modelled; each is taken to go out as written.
- EventStream.FramingRoundTrip: compares octets; that a client decodes the stream as UTF-8 (section 9.2.6 of the WHATWG HTML Living Standard), so that a message with invalid octets is not recovered as such, is not modelled.
- EventStream.Parse: reads the data of events only; event types, ids and retry times, which a message with a line break can bring in, do not change the data of events and are ignored, and no frame starts with a byte order mark.
- EventSlot.Session.Writable: the status response that libwebsockets is asked for when an ended session is dropped (`src/channel.cc:40-45`) goes out on the same stream after the frames and is in neither `wire` nor what the client parses.
- The WebSocket client in `src/uwsc.cc` and the libwebsockets HTTP and WebSocket nodes of `src/channel.cc`.
