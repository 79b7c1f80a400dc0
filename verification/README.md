# A verified model of the sslcon data plane, route transactions and session control

sslcon is a client for the AnyConnect/OpenConnect VPN protocol. This project models the parts of it
whose correctness is not evident from reading one function, and proves what they are for:

* **LZS compression** (`proto/compress.go`). `LzsFormat` is the format, with a reference decoder over a
  bit string; `LzsVectors` gives its codes by number and known answers; `LzsParse` is a brute-force greedy
  compressor over the same format. `LzsDecompress` and `LzsCompress` are the programs: a bit reader and a bit writer kept in small integers, a 64K-entry hash
  table with a 2048-slot ring of chain links, and the loops. The decompressor computes exactly the
  reference decoder on every input, errors included; the compressor writes exactly the brute-force
  compressor's bytes, or reports a full output exactly when they do not fit. About the reference pair it
  is proved that decoding inverts encoding, that the chosen matches are the longest in the window and the
  nearest among equals, how large the output can be, and that the end marker is read with exactly two
  bytes left.
* **Route transactions** (`utils/vpnc/vpnc_darwin.go`). `RouteMessage` is the byte layout of requests and
  records, `RouteAcks` sequence numbers and answers, `RouteBatch` what a batch does to the kernel table
  and to the list of installed routes for every way the kernel may answer, `RouteSocket` the pipeline
  itself over a nondeterministic kernel, and `Handover` the one socket under several sessions. A failed batch
  of ADDs leaves the table as it was, and the list of installed routes too, but for one exactly stated case;
  a whole connection leaves the table as it found it but for the old server host route.
* **Frames and buffers** (`vpn/tls.go`, `vpn/dtls.go`, `vpn/buffer.go`). `Frames` says what goes on the
  wire and what a frame means, `FrameLoops` builds and strips frames in place, `Pool` follows payloads
  through the pool, the queues and the loops of all sessions.
* **Sessions** (`session/session.go`, `rpc/rpc.go`, `vpn/dtls.go`). `Sessions` is the store of session
  generations, `DtlsSupervisor` the goroutine that rebuilds the DTLS channel, `DtlsLifetime` that goroutine
  and its session together, `Reconnect` automatic reconnection among the request handlers.

`Bits` holds the bit-string arithmetic. `dafny verify dfyconfig.toml` checks everything.

## Modelling choices

* Shifts and masks on unsigned integers are `Shl`, `Shr` and `Low` over naturals; the 32-bit truncation of
  the bit writer's accumulator is written out, and an `or` of values without common bits is their sum.
* A read-only slice is a sequence value; a slice that is written is an array. The blocks of `lzsCompress`
  and `lzsDecompress` are separate methods (`PutStep`, `PutLongest`, `FindMatch`, `PutMatch`, `PutTail`,
  `GetMatch`, `CopyMatch`); closures over shared variables are the classes `BitReader`, `BitWriter` and
  `HashIndex`.
* The kernel is any that obeys the contracts of `RouteSocket.Kernel`: no other process edits the table; a
  request that fails changes nothing; a record that carries one of our sequence numbers carries our answer.
  The kernel sees of a request only the message bytes. Everything else is left open: which requests fail and
  why, whether the write or a later record says so, how records are grouped and ordered, what else arrives.
  The kernel's flags `silent`, `failedDelete`, `failedAdd`, `openFailed` and `drainFailed` record that an
  answer never came, that a DELETE or an ADD failed for another reason than presence or absence, and that the
  socket could not be opened or drained. `rollbackFailed` records that a rollback did not go through;
  `Socket.TroubleKept`, which every operation ensures, says that only the kernel's flags can be the cause.
  The transaction results are stated for runs without the flags they name.
* A batch has at most 2^32-1 requests, the number of distinct nonzero sequence numbers.
* In `Sessions` and `Pool` objects are records in a store and references are indices, so that stale
  references are explicit. In `Sessions`, `Reconnect`, `DtlsSupervisor`, `DtlsLifetime` and `Pool` each step is
  atomic, and every order of steps is a run. What the outside does (timers, dial and handshake outcomes,
  frames) is a parameter.
* In `Pool` each loop is a program counter and its local variable, and a step is one statement of one loop.
  Putting, queueing and writing act on the payload whoever else has it; that nobody has is the result. Any
  number of loops of any role may run for any session, and all sessions share the pool.
* One read gives one complete frame, and a payload with its header fits its buffer, as the code assumes.

## Where the code and its comments differ

* The DTLS retry delay is said to be capped at 60 seconds (`vpn/dtls.go:135`); the code goes 5, 10, 20, 40,
  80, 80, ... (`vpn/dtls.go:142-144`). `DtlsSupervisor.SixtySecondCap` says exactly when the cap holds.
* A DISCONNECT during a reconnect wait is said to end the loop at once (`rpc/rpc.go:199-200`). That fails
  when another client's CONNECT has passed its guard (`rpc/rpc.go:151-160`) and not yet run
  `NewConnSession`, which clears `ActiveClose` (`session/session.go:151`). `Reconnect.CancelCanFail` gives
  the run, and `Reconnect.CancelExactly` the condition, for runs without RECONNECT, which has no such guard.
* The kernel deletes a route by destination and effective mask, `removeInstalledLocked` forgets it only if
  interface, gateway and the bytes of the mask agree as well (`utils/vpnc/vpnc_darwin.go:711-725`; no mask and
  a mask of all ones mean the same to the kernel, not to the record). `RouteBatch.DeleteStaysOwned` says
  exactly when one recorded DELETE keeps the two in step. A DELETE is not even recorded when a later write of
  its batch is refused (`utils/vpnc/vpnc_darwin.go:653-660`). So a second `SetRoutes` on an open socket can
  leave the list naming routes that are not there, in two ways: `RouteBatch.DriftByGateway` and
  `RouteBatch.DriftByRefusal` give them at a concrete state, and `RouteBatch.ReplaceExactly` says that the
  list stays exact in every run if and only if no host route to the server is listed beforehand or the batch
  is malformed. On a fresh socket none is.
* A failed batch of ADDs is meant to leave everything as it was. The table always is. After a refused write
  the rollback's deletes also go through `removeInstalledLocked`, although the batch has recorded nothing
  (`utils/vpnc/vpnc_darwin.go:653-660`, `utils/vpnc/vpnc_darwin.go:727-747`); they take out an entry that was
  listed before if the list named a route that was not there. `RouteBatch.UnlistedByRefusal` is such a run,
  and `RouteBatch.AddFailureExactly` the condition over all runs. An exact list never meets it.
* `ResetRoutes` has no generation check. The tunnel writer of a replaced session resets the routes when it
  exits late (`vpn/tun.go:106-113`), and the new session is left current without routes and without a socket.
  `Handover.LateExit` is the run, and `Handover.TakesOver` says exactly when it happens.
* `ConnSession.Close` closes the DTLS session only if `DtlsConnected` is set (`session/session.go:323-325`).
  A session closed while its DTLS channel is being dialed leaves a channel that nothing will close before a
  read fails: `DtlsLifetime.StrandedRun`, `DtlsLifetime.StrandedExactly`.
* Senders are said to free what the tunnel reader allocated (`vpn/tun.go:66`). Where packets are read behind an
  offset (four bytes on macOS) the payload has lost capacity and never returns to the pool:
  `Pool.ReadCapacity`.

## Model

| member | source | states |
|---|---|---|
| LzsParse.RoundTrip | proto/compress.go:98-391 | decoding the compressed bytes of any input gives the input if the room suffices, and reports a full output otherwise |
| LzsCompress.ThereAndBack | proto/compress.go:98-391 | the two programs composed through buffers return every input of at most 64 KiB, given floor(9n/8)+2 and n bytes of room |
| LzsCompress.Compress | proto/compress.go:209-391 | writes exactly the bytes of the brute-force greedy parse and leaves the rest of the buffer alone; full output exactly when they do not fit; inputs over 65536 bytes are refused untouched |
| LzsDecompress.Decompress | proto/compress.go:98-207 | on every byte string the result or the error of the reference decoder, in the destination and nowhere else |
| LzsDecompress.BitReader.GetBits | proto/compress.go:105-127 | the next 2, 4 or 9 bits of the bit string; fails exactly when fewer than two bytes remain from the current one |
| LzsDecompress.GetLength | proto/compress.go:164-193 | the length part of a match is what the reference reader reads, errors included |
| LzsDecompress.GetMatch | proto/compress.go:152-193 | offset and length of a match are what the reference reader reads, errors included |
| LzsDecompress.DecodeMatch | proto/compress.go:195-200 | an offset of zero or beyond what was produced is an invalid sequence, whatever room there is; then a match that does not fit is a full output |
| LzsDecompress.CopyMatch | proto/compress.go:201-205 | byte-by-byte copying yields the self-overlapping extension and touches nothing behind it |
| LzsRoundTrip.DecodeCodes | proto/compress.go:129-206 | the codes of any token string closed by the end marker decode to what the tokens stand for, or to a full output |
| LzsRoundTrip.ItemRead | proto/compress.go:130-193 | every code is read back as its token, so no match code is the end marker |
| LzsRoundTrip.DecodeYield | proto/compress.go:129-206 | from any position a result fits the room and grows by at most 15 bytes for each 4 bits |
| LzsRoundTrip.DecompressionRatio | proto/compress.go:129-206 | a result has at most len(dst) and at most 30 times len(src) bytes |
| LzsParse.GreedyChoice | proto/compress.go:257-290 | a literal exactly when none of the 2047 positions before has the same two bytes; otherwise the longest repetition among exactly those positions, the nearest of several |
| LzsParse.TailChoice | proto/compress.go:352-378 | a last pair is a match of length two with the nearest indexed equal pair at most 2047 back, and two literals exactly when there is none |
| LzsParse.ParseGoesOn | proto/compress.go:333-383 | what follows each token: the parse of what it leaves, or, after a match that reaches the last two bytes, a tail that sees positions up to that match only |
| LzsVectors.CodeNumbers | proto/compress.go:293-331 | every code as the numbers the source puts: literals in nine bits, 0x180 or 0x1000 and the offset, lengths in two or four bits or as ones and a last nibble; the end marker bit by bit |
| LzsVectors.ToBitsAt | proto/compress.go:230-251 | bit strings are most significant bit first |
| LzsVectors.Empty | proto/compress_test.go:22 | the empty input compresses to c000 |
| LzsVectors.Literals | proto/compress_test.go:21 | abc compresses to 30988c7800 |
| LzsVectors.Repeated | proto/compress_test.go:19 | twenty times A compresses to 20e07ef000 |
| LzsParse.ParseExpands | proto/compress.go:257-383 | from every position the parse, tail branches included, stands for the rest of the input |
| LzsParse.TightEnd | proto/compress.go:386 | the output has exactly two bytes from the byte that holds the start of the end marker, and the marker is read there |
| LzsParse.CompressedBits | proto/compress.go:386 | the output is the codes, the end marker and at most seven zero bits |
| LzsParse.SizeBound | proto/compress.go:209-391 | at most floor(9n/8)+2 bytes, so 2048 bytes always fit 4096 |
| LzsCompress.BitWriter.PutBits | proto/compress.go:230-251 | bytes written and pending bits are the concatenation of all codes despite the 32-bit shift; fails only when the bits so far overfill the buffer |
| LzsCompress.BitWriter.PutByte | proto/compress.go:234-249 | moving a byte out changes no bit of what was put |
| LzsCompress.Accumulate | proto/compress.go:231-233 | shifting the 32-bit accumulator and or-ing a code keeps the pending bits and appends the code |
| LzsCompress.HashIndex.Insert | proto/compress.go:258-262 | keeps the index: the table holds the last position of each byte pair and each in-window ring slot its own predecessor; gives the nearest earlier pair |
| LzsCompress.HashIndex.Lookup | proto/compress.go:353-354 | the nearest indexed position with the same two bytes |
| LzsCompress.IndexRest | proto/compress.go:339-348 | indexes the rest of a match |
| LzsCompress.BytesEqual | proto/compress.go:393-403 | equality of slices |
| LzsCompress.Extend | proto/compress.go:280-288 | the length found is the full common run |
| LzsCompress.FindMatch | proto/compress.go:272-294 | the chain walk finds the brute-force longest match, nearest among equals |
| LzsCompress.PutMatch | proto/compress.go:293-331 | appends the code of the match |
| LzsCompress.PutLength | proto/compress.go:306-331 | appends the length code, nibble pairs and all |
| LzsCompress.PutStep | proto/compress.go:257-348 | one turn of the main loop appends the bits of one token of the parse and keeps the index |
| LzsCompress.PutTail | proto/compress.go:352-383 | appends the bits of the tail, matching only indexed positions |
| RouteMessage.HeaderRoundTrip | utils/vpnc/vpnc_darwin.go:485-492 | decoding an encoded header gives every field back, whatever follows |
| RouteMessage.BuildRtMsg | utils/vpnc/vpnc_darwin.go:420-483 | a message exactly for well-formed routes, of 92 to 176 bytes; its contents are what ParseBuilt says |
| RouteMessage.MessageBytes | utils/vpnc/vpnc_darwin.go:436-482 | a built message byte by byte: length, version 5, kind, sixteen bits of the index, flags 0x803 or 0x807 for a host, addresses 7 or 3, pid, sequence number, and the sockaddrs |
| RouteMessage.HeaderBytes | utils/vpnc/vpnc_darwin.go:468-482 | every header field at its offset, least significant byte first |
| RouteMessage.SockaddrBytes | utils/vpnc/vpnc_darwin.go:352-418 | a sockaddr byte by byte, for both families |
| RouteMessage.AddressBytes | utils/vpnc/vpnc_darwin.go:460-466 | destination, gateway and, for a network route, the mask, in this order |
| RouteMessage.MaskOnesIs | utils/vpnc/vpnc_darwin.go:441-445 | a mask has prefix length n exactly when it is n ones and then zeros, of 32 or 128 bits |
| RouteMessage.HostMask | utils/vpnc/vpnc_darwin.go:439-449 | no mask and a mask of all ones mean a host route, any other mask itself |
| RouteMessage.CanonicalForms | utils/vpnc/vpnc_darwin.go:356-380 | a four-byte address and its sixteen-byte form are equal |
| RouteMessage.ParseBuilt | utils/vpnc/vpnc_darwin.go:420-483 | reading a built message gives back kind, number, destination, effective mask, gateway, and the interface index in sixteen bits |
| RouteMessage.BuiltIsWellFormed | utils/vpnc/vpnc_darwin.go:420-483 | a built message declares its own length, kind and sequence number |
| RouteMessage.WalkVisitsEach | utils/vpnc/vpnc_darwin.go:800-822 | walking messages laid end to end visits each exactly once, in order, and stops at a rest that is too short or declares a wrong length |
| RouteAcks.SequenceDistinct | utils/vpnc/vpnc_darwin.go:749-755 | any 2^32-1 consecutive sequence numbers are distinct and nonzero, across the wrap-around |
| RouteAcks.FirstAnswer | utils/vpnc/vpnc_darwin.go:811-820 | a number is answered exactly when a record carries it, and its answer is the first such record's |
| RouteAcks.AnswersByRead | utils/vpnc/vpnc_darwin.go:788-822 | over the records of each read: a number is answered exactly when some read holds a record that carries it, with the errno of the first such record of the first such read |
| RouteAcks.WalkBuffer | utils/vpnc/vpnc_darwin.go:800-822 | one buffer adds exactly the answers of the records met on the walk |
| RouteAcks.CollectAcks | utils/vpnc/vpnc_darwin.go:779-826 | every result is the errno of the first record that carries its number, by read and by place in the read; every wanted number carried before a failure of the socket has a result; succeeds exactly when all have |
| RouteBatch.AddBatchAtomic | utils/vpnc/vpnc_darwin.go:653-692 | a failed batch of ADDs whose rollback goes through leaves the table as it was from any state; the list too if the results were recorded, whatever it was, and otherwise if it named nothing the batch added |
| RouteBatch.AddFailureExactly | utils/vpnc/vpnc_darwin.go:614-747 | every failing run of a batch of ADDs leaves the list alone if and only if the batch is malformed or no listed route equals a route of the batch, not its last, whose key is not in the table |
| RouteBatch.UnlistedByRefusal | utils/vpnc/vpnc_darwin.go:653-660 | concrete failure: after a refused write the rollback takes out an entry the batch never made |
| RouteBatch.AddRunFails | utils/vpnc/vpnc_darwin.go:614-695 | any failed run of a batch of ADDs leaves the table, and the list unless it is exposed in that way |
| RouteBatch.AddRunKeeps | utils/vpnc/vpnc_darwin.go:614-695 | no run of a batch of ADDs loses a route that is in the table, or the entry of one |
| RouteBatch.AddsKeepOwned | utils/vpnc/vpnc_darwin.go:697-709 | after ADDs the installed list is, without duplicates, exactly what is in the table besides the base, which survives |
| RouteBatch.ResetRestores | utils/vpnc/vpnc_darwin.go:196-214 | deleting all installed routes leaves the base |
| RouteBatch.AddRunKeepsOwned | utils/vpnc/vpnc_darwin.go:614-695 | every run of a batch of ADDs keeps the list exact, and a failed one changes nothing |
| RouteBatch.ReplaceKeepsOwned | utils/vpnc/vpnc_darwin.go:129-182 | if no route to the server is listed, every run of the first batch keeps the list exact; a failed one leaves the list and loses at most the server's route |
| RouteBatch.ReplaceExactly | utils/vpnc/vpnc_darwin.go:614-725 | replacing the server route keeps the list exact in every run if and only if no host route to the server is listed or the batch is malformed and so not tried |
| RouteBatch.DriftByGateway | utils/vpnc/vpnc_darwin.go:711-725 | concrete failure: with another gateway everything succeeds and the list names the route twice |
| RouteBatch.DriftByRefusal | utils/vpnc/vpnc_darwin.go:653-660 | concrete failure: the DELETE succeeds, the next write is refused, and the list names a route that is gone |
| RouteBatch.ReplacedPresent | utils/vpnc/vpnc_darwin.go:129-182 | after success the server route is the one asked for; a split route has its own entry if it is the first with its key and the key was free; everything else is as it was |
| RouteBatch.ReplacedListed | utils/vpnc/vpnc_darwin.go:697-709 | after success the server route is listed, whatever was listed before |
| RouteBatch.FirstAddDecides | utils/vpnc/vpnc_darwin.go:614-695 | of several ADDs with one free key, none failing, the first decides the entry |
| RouteBatch.DeletesAbsent | utils/vpnc/vpnc_darwin.go:196-208 | after DELETEs none of which failed, none of the routes is in the table, from any state |
| RouteBatch.DeleteStaysOwned | utils/vpnc/vpnc_darwin.go:702-725 | one DELETE whose success is recorded keeps the list exact if and only if no listed route shares its destination and effective mask with another interface, gateway or mask bytes |
| RouteBatch.RemovePresent | utils/vpnc/vpnc_darwin.go:711-725 | removing takes out the last equal entry and nothing else, from any list |
| RouteBatch.RemoveLast | utils/vpnc/vpnc_darwin.go:711-725 | the last entry with the same interface, destination, mask bytes and gateway is taken out; without one nothing is |
| RouteSocket.FateNumbers | utils/vpnc/vpnc_darwin.go:640-686 | by number: 0 is success, 17 skips an ADD, 2 and 3 skip a DELETE, anything else fails |
| RouteSocket.Kernel.Write | utils/vpnc/vpnc_darwin.go:757-777 | what a request may do, read from its message: unless the kernel has a reason of its own, an ADD of a present key and a DELETE of an absent one are skipped, and the others done; its own reasons change nothing and raise a flag |
| RouteSocket.Socket.NextSequence | utils/vpnc/vpnc_darwin.go:749-755 | 32-bit increment that skips zero |
| RouteSocket.Socket.RemoveInstalled | utils/vpnc/vpnc_darwin.go:711-718 | removes the last equal route |
| RouteSocket.Socket.ApplyResults | utils/vpnc/vpnc_darwin.go:697-709 | the installed list after the successful requests in order |
| RouteSocket.Socket.BuildRequests | utils/vpnc/vpnc_darwin.go:625-633 | succeeds exactly when all routes are well formed, with distinct sequence numbers and messages that carry the routes, 1 to add and 2 to delete, the pid and the number |
| RouteSocket.Socket.WriteAll | utils/vpnc/vpnc_darwin.go:637-663 | what became of each request tried up to the first refused one, the table after them, and that the written ones tell all that matters |
| RouteSocket.Socket.CollectFor | utils/vpnc/vpnc_darwin.go:779-826 | if answers arrive, every written request gets the kernel's verdict on it |
| RouteSocket.Socket.RollbackList | utils/vpnc/vpnc_darwin.go:727-740 | the DELETEs of exactly the successful ADDs, in order |
| RouteSocket.Socket.RollbackSuccessfulAdds | utils/vpnc/vpnc_darwin.go:727-747 | table and list after the rollback's deletes; it fails only if the kernel is silent, fails a DELETE or cannot be drained; without ADDs it does nothing, so the recursion nests at most twice |
| RouteSocket.Socket.TakeBack | utils/vpnc/vpnc_darwin.go:653-660 | after a refused write the ADDs written before are deleted again and nothing is recorded |
| RouteSocket.Socket.Settle | utils/vpnc/vpnc_darwin.go:666-694 | after all writes the successes are recorded, and on any failure the ADDs among them deleted again; if answers arrive, fails exactly when a request failed |
| RouteSocket.Socket.Pipeline | utils/vpnc/vpnc_darwin.go:614-695 | table and list after every way a batch can go; a well-formed batch on an open, drained, answering socket succeeds unless the kernel has a reason of its own to fail a request; the mutual recursion ends because a rollback has no ADDs |
| RouteSocket.Socket.AddBatch | utils/vpnc/vpnc_darwin.go:614-695 | a batch of ADDs succeeds with every route present, or fails for a named reason and leaves the table, and the list unless it is exposed; nothing present is lost; an exact list stays exact |
| RouteSocket.Socket.AddDynamicRoutes | utils/vpnc/vpnc_darwin.go:504-540 | on success every parsed address has its host route, by the tunnel or the local pair as asked if it had none; a failure has a named reason and leaves the table, and the list unless it is exposed; an exact list stays exact; nothing happens on a closed socket |
| RouteSocket.HostKeys | utils/vpnc/vpnc_darwin.go:520-534 | the routes made for parsed addresses cover each of them as a host, all by the given interface and gateway |
| RouteSocket.ConnectionRoutes | utils/vpnc/vpnc_darwin.go:136-179 | DELETE and ADD of the server route by the local pair, then includes by the tunnel pair and excludes by the local pair, in order, field by field |
| RouteSocket.ConnectionRun | utils/vpnc/vpnc_darwin.go:129-182 | on success, from the fields: the server by the local pair; includes by the tunnel pair and excludes by the local pair wherever the key was free and not taken earlier in the batch; nothing else changed |
| RouteSocket.ConnectionOwned | utils/vpnc/vpnc_darwin.go:129-182 | if no route to the server was listed, the list stays exact, and a failure loses at most that route |
| RouteSocket.Socket.OpenAndAdd | utils/vpnc/vpnc_darwin.go:494-502 | opens the socket if need be, remembering its pairs, and runs the batch |
| RouteSocket.Socket.SetRoutes | utils/vpnc/vpnc_darwin.go:129-182 | on success, from the fields and whatever was installed: the server by the local pair, includes by the tunnel pair and excludes by the local pair wherever the key was free and not taken earlier, nothing else changed; if no route to the server was listed, the list stays exact, and a failure leaves it and loses at most that route; failures have named reasons |
| RouteSocket.Socket.OpenSocket | utils/vpnc/vpnc_darwin.go:542-580 | opens at most once and remembers the gateways of the first opening; fails only if opening or draining does |
| RouteSocket.Socket.ResetRoutes | utils/vpnc/vpnc_darwin.go:196-214 | from an exact list the base is left, from any list no listed route; the socket is closed |
| RouteSocket.Connection | utils/vpnc/vpnc_darwin.go:107-214 | SetRoutes, any number of dynamic batches and ResetRoutes leave the initial table but for the server host route, if the kernel answers, fails no DELETE and lets the socket be drained; if it fails nothing at all and the routes are well formed, the connection comes up |
| Handover.TunnelWriterExits | vpn/tun.go:106-113 | unless the user has disconnected, the listed routes of whatever session are deleted and the socket closed |
| Handover.Disconnect | rpc/connect.go:50-57 | the listed routes are deleted and the socket closed if there is a session |
| Handover.TakesOver | vpn/tun.go:106-113 | after a takeover and any events, the session has its routes if and only if no tunnel writer of any generation has exited and the user has not disconnected, and is current if and only if neither the user nor its own writer has ended it |
| Handover.LateExit | vpn/tun.go:106-113 | the failing run: the old writer exits after the takeover, and the new session is current without routes and socket |
| Frames.DataArrives | vpn/tls.go:130-155 | a data packet that fits arrives as sent, over either channel, with any compression |
| Frames.Exchange | vpn/tls.go:38-103 | a lossless exchange delivers exactly the data packets in order, and received counters equal sent ones |
| Frames.WireNeverExceeds | vpn/tls.go:134-145 | the sent wire total never exceeds the original total |
| Frames.FrameBytes | proto/protocol.go:6-11 | a frame byte by byte, for both channels |
| Frames.BodyExactly | vpn/tls.go:134-145 | a packet is sent compressed, as type 8, exactly when LZS was negotiated and makes it smaller |
| Frames.ReceivedKinds | vpn/dtls.go:189-233 | what each type of frame means on each channel, by number |
| Frames.CountersCount | vpn/tls.go:134-167 | the counters are the bytes of all frames, of the data before compression, and of the frames without headers |
| FrameLoops.CompressData | proto/compress.go:60-71 | LZS if negotiated; anything else is unsupported |
| FrameLoops.DecompressData | proto/compress.go:73-82 | LZS if negotiated; anything else is unsupported |
| FrameLoops.Payload.ShiftUp | vpn/tls.go:146-149 | the overlapping copy upwards keeps the payload behind the header |
| FrameLoops.Payload.ShiftDown | vpn/tls.go:63-66 | the overlapping copy downwards leaves exactly the body |
| FrameLoops.Squeeze | vpn/tls.go:131-145 | compresses in place only if that is agreed and smaller, and counts both sizes |
| FrameLoops.SendTls | vpn/tls.go:129-167 | the buffer becomes the CSTP frame of the payload; counters advance by its sizes |
| FrameLoops.SendDtls | vpn/dtls.go:264-301 | the buffer becomes the DTLS datagram of the payload; counters advance by its sizes |
| FrameLoops.ReceiveTls | vpn/tls.go:45-102 | the buffer becomes the body, or its decompression, or an answer, as the frame means |
| FrameLoops.ReceiveDtls | vpn/dtls.go:178-234 | the same for the one-byte header, where DISCONNECT and decompression errors end the channel |
| FrameLoops.SendLoop | vpn/tls.go:122-171 | the frames of the queue in order, and their statistics |
| FrameLoops.ReceiveLoop | vpn/tls.go:38-103 | what the frames deliver up to the first that ends the channel, and their statistics |
| FrameLoops.LosslessRun | vpn/dtls.go:154-306 | both loops composed deliver the packets sent, with equal counters and no growth |
| Pool.PayloadPool.GetPayloadBuffer | vpn/buffer.go:23-26 | a handle leaves the pool, or a new ready payload is made |
| Pool.PayloadPool.PutPayloadBuffer | vpn/buffer.go:28-38 | reset and added to the pool if of pool capacity, whoever else has it; otherwise nothing |
| Pool.ReceiverKeeps | vpn/tls.go:38-104 | every statement of the receive loops (also vpn/dtls.go:171-235) keeps the ownership invariant |
| Pool.SenderKeeps | vpn/tls.go:122-171 | every statement of the send loops (also vpn/dtls.go:255-305) keeps it; a timer payload keeps type and capacity because of the queue it comes from |
| Pool.TunReaderKeeps | vpn/tun.go:65-99 | every statement of the tunnel reader keeps it |
| Pool.TunWriterKeeps | vpn/tun.go:122-159 | every statement of the tunnel writer keeps it |
| Pool.TickKeeps | session/session.go:239-261 | the timer queues its payloads any number of times |
| Pool.RunKeeps | vpn/buffer.go:12-38 | the invariant holds over every interleaving of any number of loops, sessions and timers |
| Pool.PoolOwnership | vpn/buffer.go:12-38 | in every run a payload in the pool is ready, there once, in no queue and in no hands, and a payload made for the pool is in one place at most |
| Pool.HandsOwnership | vpn/tun.go:65-159 | in every run what a loop holds nobody else has, and a read fills a ready buffer; a timer payload is held by senders of its own channel and session only, and a put never takes it in |
| Pool.QueueContents | session/session.go:239-261 | in every run the queue to the tunnel has data only, and a timer payload is queued for its own channel and session only, with its capacity of 8 or 1 |
| Pool.PutAfterPush | vpn/buffer.go:28-38 | a loop that put back what it has queued would break the invariant |
| Pool.ReadCapacity | vpn/tun.go:65-76 | length and capacity after a read at an offset; such a payload can return to the pool if and only if the offset is zero |
| Pool.ClosingBranch | vpn/tun.go:86-98 | a failure or a closing branch ends the loop; only the tunnel reader on its way to a closed DTLS channel goes on |
| Pool.InboundCycle | vpn/tls.go:45-72 | a run in which a packet from the server goes to the tunnel and its payload back to the pool |
| Pool.AnswerCycle | vpn/tls.go:94-100 | a run in which a request is answered with its own payload, which then returns |
| Pool.OutboundCycle | vpn/tun.go:65-98 | a run in which a packet from the tunnel goes to the server over either channel and its payload back to the pool |
| Sessions.Session.NewConnSession | session/session.go:130-152 | installs a generation and a fresh global channel, and clears ActiveClose |
| Sessions.Session.CloseDtls | session/session.go:339-349 | once; negotiated state is cleared only for the current session's own |
| Sessions.Session.CloseConn | session/session.go:321-337 | once; a stale session changes nothing of the current one or of the global channel |
| Sessions.Session.Disconnect | rpc/connect.go:50-57 | marks the close as wanted and closes the current session only |
| Sessions.Run | session/session.go:321-349 | over every interleaving no channel is closed twice, no session is current exactly when none exists or the newest is closed, and the global channel is open while one is |
| DtlsSupervisor.Supervise | vpn/dtls.go:60-133 | a run that ends does so at its last turn, with the setup channel closed exactly once, by the end of the first turn; every wait is made disconnected; the wait of turn i lasts by its distance from the last success, or from the start if there was none |
| DtlsSupervisor.Attempt | vpn/dtls.go:73-131 | one turn up to its wait: a success resets the delay to 5, and a lost channel leaves the flag and the name cleared |
| DtlsSupervisor.BackoffNumbers | vpn/dtls.go:137-149 | 5, 10, 20, 40 and then 80 seconds |
| DtlsSupervisor.Doubling | vpn/dtls.go:137-149 | the code's doubling is 5*2^min(k,4) |
| DtlsSupervisor.SixtySecondCap | vpn/dtls.go:135-149 | the promised cap of 60 seconds holds exactly for the first four waits since a success |
| DtlsLifetime.ClosedWithSession | session/session.go:321-337 | over every run, the DTLS session of a closed session is closed if and only if the session was closed between setting and clearing DtlsConnected |
| DtlsLifetime.StrandedExactly | vpn/dtls.go:73-149 | closing a session can leave its channel running with nothing to close it if and only if the supervisor is dialing or shaking hands |
| DtlsLifetime.StrandedRun | vpn/dtls.go:73-107 | a run from the start to that state |
| DtlsLifetime.StrandedStays | vpn/dtls.go:154-236 | it lasts until a read fails |
| DtlsLifetime.TurnRuns | vpn/dtls.go:73-133 | turns of the supervisor as steps with the session: it leaves exactly at a turn that ends, never with the flag set while the session is current |
| Reconnect.ReconnectLoop | rpc/rpc.go:257-293 | the wait before attempt k+1 is the capped power; a wait is made exactly in rounds entered with ActiveClose unset and an attempt follows exactly when it still is; the loop goes where the steps of the transition system go |
| Reconnect.RoundMoves | rpc/rpc.go:264-291 | one turn of the loop, taken as steps of the transition system: whether the loop goes on and with which delay, whether an attempt was made, whether a session came up |
| Reconnect.DelayIsCappedPower | rpc/rpc.go:276-279 | the delay is min(2^k, 60) |
| Reconnect.RunSafe | rpc/rpc.go:257-262 | in every run at most one loop is active, exactly while the flag is set, with the right delay |
| Reconnect.NoLoopWhenOff | rpc/rpc.go:249-252 | with automatic reconnection off, no run has a loop or an attempt |
| Reconnect.Guards | rpc/rpc.go:149-207 | which requests find nothing to do, and what DISCONNECT leaves |
| Reconnect.LateDisconnect | rpc/rpc.go:282-286 | a DISCONNECT during a succeeding attempt closes the new session and ends the loop |
| Reconnect.CancelEnds | rpc/rpc.go:196-202 | after a DISCONNECT in a wait, with no setup in flight and no RECONNECT, the loop makes no further attempt |
| Reconnect.CancelExactly | rpc/rpc.go:149-202 | that cancellation holds in all runs without RECONNECT if and only if no CONNECT is past its guard and short of its session |
| Reconnect.CancelCanFail | rpc/rpc.go:149-202 | a run from the start that reaches the failing state |

## Left out

- LZ4: an external library; the model has no such compression.
- Partial frames and payloads that outgrow their buffer: the code panics or delivers stale bytes there, and the model requires them away.
- Contents of the output buffer after a failed compression or decompression.
- 64-bit wrap-around of the byte counters.
- Transport, TLS and DTLS handshakes, HTTP, XML and cookies (`auth/`, `vpn/tunnel.go`), JSON-RPC, the command line and logging.
- Parsing of header values, addresses and masks: routes come parsed; only the builder's own checks are modelled.
- TUN devices, `wintun/`, DNS sniffing and DNS configuration; the sniffing goroutine also keeps a raw slice, so ownership is stated for payload handles only.
- Linux and Windows routes: direct calls without transactions.
- `writeWithRetry`: its retries are folded into one write that accepts or refuses.
- Real time, fairness and eventual exit of goroutines: timers are steps, and the results are safety results.
- Interleavings inside one function of `session/session.go` or one handler stage: each is one step.
- Pool: the loops are steps on values and track type, length and capacity only; updates of the bytes in place are in `FrameLoops`.
