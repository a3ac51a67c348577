# A verified model of the Fastsocks core

Fastsocks is a TCP message client with the libraries it carries. This project models
the parts of it whose correctness is hardest to see, and proves what they promise:

- **The packet path** (`Wire`, `ByteBuffers`, `BufferStorages`, `TcpConnections`,
  `ByteStreams`, `NetworkMessages`, `PooledMessages`, `Links`, `Channels`). Packets are
  printed, batched, drained in partial sends, received in arbitrary chunks and
  reassembled. The main result, `Links.EndToEnd`, says that over every interleaving of
  these the receiver delivers a prefix of the messages sent, and all of them once nothing
  is under way. The class `Channel` runs the code of both sides and is proved to take
  exactly those steps, so `Channels.Channel.Delivers` holds of every state it reaches.
  Both are about messages that have a buffer of their own until they are copied into a
  batch. The messages of requests that want an ack always have; `PooledMessages` says
  exactly which others do.
- **The life of a request** (`RequestLifecycle`, `RequestInvariants`, `RequestSendings`,
  `RequestRuns`, `RequestWritings`, `RequestFates`, `RequestAnswers`,
  `ConnectionsManagers`). Submission, queue, running list, hand-over to the socket,
  replies, retries, pausing, logout, handshake and connection tokens form one state
  machine. Its invariant is proved of every run. What one pass makes of each request, and
  what it writes to the socket, is determined exactly by the clock, the flags and the
  connection. The class `ConnectionsManager` handles every event as the machine does
  (`ConnectionsManager.Handle`).
- **ASN.1** (`BerHeaders`, `BerScan`, `Asn1Integers`): headers, the search for the end
  of indefinite-length elements, collecting constructed strings, integers.
- **Text** (`UtfLoops`, `UtfConversion`, `UtfRoundTrips`, `UtfStops`, `Utf8Codes`): the
  six UTF conversions, where and why they stop, resuming them and undoing them, and
  single six-byte characters.
- **Dates, ciphers, digests, streams** (`JulianDates`, `AesIge`, `Md5`, `Base64`,
  `Base64Streams`, `BufferingBio`).
- **Two concurrent protocols** (`RunOnce`, `RefCounts`) over any number of threads and
  every interleaving.

Code that changes things step by step is modelled by methods and classes with the same
loops and fields, each proved against a specification function; the theorems are about
those functions. Integers are unbounded except where a width matters, and there it is
written out: 16-bit packet lengths, the 64-bit time difference, 32-bit characters, the
64-bit bit count, C division, the `int` product of a time offset and the `(int)` casts.
Masks and shifts are written as remainders and quotients. Time, the socket's willingness
to open or to take bytes, the compression function and the block cipher are parameters,
so every statement is for all of them.

## What turned out otherwise

Some promises do not hold of the code as it is. Each has a witness and an exact condition.

- A message printed by `serializeToBuffer` parses back if and only if the 16-bit length
  equals twenty plus the bytes that remain in its body
  (`NetworkMessages.NetworkMessage.RoundTripIffTrueLength`); a body read in part and the
  shortest body that is too long do not (`ReadBodyLost`, `LongBodyLost` beside it).
- When a chunk uses up the carried-over buffer to its end, `onRecvData` gives that buffer
  back and then tests it once more: the exact condition is `LooksBack`, and every message
  that arrives in two pieces meets it (`TcpConnections.TcpConnection.OnRecvData`,
  `TcpConnections.TcpConnection.TwoPiecesLookBack`).
- While the handshake is idle there is no connection, and five things dereference it all
  the same: the tasks of logging out, of resuming by the user and of setting the only
  server, a pause that begins, and a ping that comes due with no account set. No other
  event does (`RequestRuns.CrashesExactlyWhen`, with runs in
  `RequestRuns.TasksBeforeHandshakeCrash`, `RequestRuns.PauseBeforeHandshakeCrashes` and
  `RequestRuns.PingAfterLogoutCrashes`).
- The time a request has waited is compared unsigned, so a clock that is set back makes it
  expire at once: exactly if it is set back by at most 2^64 less the timeout
  (`RequestFates.DueExactly`, `RequestFates.SetBackExpires`).
- One connection can get a request twice: a request that may be resent is handed to a
  socket that is still connecting, before any handshake, and again on the token that
  socket is then given (`RequestRuns.WrittenTwice`). There are never more than two
  writings (`RequestSendings.WrittenAtMostTwice`). With the socket open, the network
  available and no batch failing, a pass writes a running request to the socket if and
  only if the token is not the request's and the handshake is done or the request may go
  without login (`RequestWritings.RunningWritten`). So a request that the socket got
  early is doubled exactly then (`RequestWritings.DoubledExactly`). A pass writes a queued
  request to a socket that is connecting exactly if it may be resent
  (`RequestWritings.QueuedWritten`).
- A message without ack can lose its packet before it is copied: the request is destroyed
  at once and gives the message's buffer back. The buffer is handed on to a later message
  or batch if and only if its free list has room and at least as many later ones ask for
  its size class as that list then holds; given back to a full list it is deleted
  (`PooledMessages.HandedOutAgain`, `PooledMessages.DeletedIsGone`). So with no free
  buffer of the class, and a request's own buffer of another class, the second of two
  messages gets that of the first (`PooledMessages.SecondTakesFirst`).
- `isLegalUTF8` accepts some malformed sequences after the first bytes ED and F4, so a
  conversion can report success and not be undone (`UtfConversion.LegalExactly`,
  `UtfRoundTrips.Utf8ThroughUtf16`, `UtfRoundTrips.MalformedAccepted`).
- A conversion from UTF-32 that notes an error and then runs out of room reports only the
  latter. The run that resumes does not report the former exactly when a value above
  10FFFF lies before the break and the rest of the source is legal and fits
  (`UtfRoundTrips.ResumedCode32To8`, `UtfRoundTrips.ResumedCode32To16`, with the input
  `UtfRoundTrips.ErrorLost`). No other conversion loses one
  (`UtfRoundTrips.ResumedCodeOthers`).
- `ASN1_get_object` passes the remaining length through an `int`, which limits its
  round trip (`BerHeaders.GetUndoesPut`, `BerHeaders.LongContentRefused`).
- `UTF8_putc` drops the upper bits of values from 2^31 on (`Utf8Codes.GetUndoesPut`,
  `Utf8Codes.HighBitsDropped`).
- `AES_bi_ige_encrypt` on one buffer is undone only at fixed points of the cipher
  (`AesIge.BiInPlaceFixed`). Whatever the key, that is sure exactly for messages of at
  most one block (`AesIge.BiInPlaceSafe`, `AesIge.BiInPlaceLoses`).
- More than one decrement can report zero when a count at zero is incremented
  (`RefCounts.Reports`, `RefCounts.TwoReports`).
- `OPENSSL_gmtime_diff` fails exactly when one of the times lies before day number zero,
  so it does not undo every adjustment
  (`JulianDates.DiffMeans`, `JulianDates.DiffRefused`).
- `EVP_DecodeBase64` also accepts texts that are not encodings: those whose last
  character carries nonzero bits that no byte takes (`Base64.EncodeUndoesDecode`,
  `Base64.SpareBitsDropped`).

## Model

| member | source | states |
|---|---|---|
| `Wire.ParseAppend` | fastsocks/cpp/tcp/TcpConnection.cpp:94-261 | parsing a stream in one piece equals parsing a first part and going on from its packets and its unparsed rest, for every split, also when the first part ends in a rejected header |
| `Wire.RestIsStuck` | fastsocks/cpp/tcp/TcpConnection.cpp:139-202 | what a parse leaves over contains no further packet, or starts with a header that is refused |
| `Wire.OnePacketOn` | fastsocks/cpp/tcp/TcpConnection.cpp:203-227 | taking the complete packet at the front of a stream leaves the rest of the parse as it was |
| `Wire.OneChunkOn` | fastsocks/cpp/tcp/TcpConnection.cpp:94-229 | a chunk parsed behind the carry-over, and then the rest of the stream, is the whole stream parsed at once; after a refused header nothing later is delivered |
| `Wire.HeaderFields` | fastsocks/cpp/tcp/NetworkMessage.cpp:29-34 | a printed header passes the header check and gives back, read in network order, its length, twenty, version 1, its command, its account number of eight bytes and its sequence number, negative ones included |
| `Wire.TakenExactly` | fastsocks/cpp/tcp/TcpConnection.cpp:231-244 | for every header anyone might send: exactly those of version 0 or 1, of twenty bytes or more and no longer than their packet, are taken, the bytes of a longer header skipped and the packet delivered with its command, sequence number and body; every other header ends the parse |
| `Wire.ParsePrinted` | fastsocks/cpp/tcp/NetworkMessage.cpp:22-41 | a printed message of at most 65515 body bytes is parsed as exactly itself, whatever follows it |
| `Wire.ParsePrintedAll` | fastsocks/cpp/tcp/NetworkMessage.cpp:22-41 | the printed form of any list of such messages is parsed as that list with nothing left over |
| `Wire.ParsePrefix` | fastsocks/cpp/tcp/TcpConnection.cpp:94-229 | of a printed stream seen only in part a prefix of the messages is delivered, and all of them once all of it was seen |
| `ByteBuffers.NativeByteBuffer.SetPosition` | fastsocks/cpp/tcp/NativeByteBuffer.cpp:68-73 | a position beyond the limit is ignored; position <= limit <= capacity is kept |
| `ByteBuffers.NativeByteBuffer.SetLimit` | fastsocks/cpp/tcp/NativeByteBuffer.cpp:91-99 | a limit beyond the capacity is ignored; a smaller limit pulls the position down to it |
| `ByteBuffers.NativeByteBuffer.Flip` | fastsocks/cpp/tcp/NativeByteBuffer.cpp:101-104 | what was written becomes what remains to be read |
| `ByteBuffers.NativeByteBuffer.Clear` | fastsocks/cpp/tcp/NativeByteBuffer.cpp:107-110 | the whole capacity is open again |
| `ByteBuffers.NativeByteBuffer.Compact` | fastsocks/cpp/tcp/NativeByteBuffer.cpp:120-128 | the unread bytes move to the front and count as written; with nothing unread nothing changes |
| `ByteBuffers.NativeByteBuffer.WriteByte` | fastsocks/cpp/tcp/NativeByteBuffer.cpp:150-163 | the written bytes grow by the byte, or stay when there is no room |
| `ByteBuffers.NativeByteBuffer.WriteAll` | fastsocks/cpp/tcp/NativeByteBuffer.cpp:169-232 | a multi-byte value is written whole or, without room, not at all |
| `ByteBuffers.NativeByteBuffer.WriteBytes` | fastsocks/cpp/tcp/NativeByteBuffer.cpp:269-289 | all that remains in the other buffer is written and consumed, or, without room, nothing is |
| `ByteBuffers.NativeByteBuffer.WriteSlice` | fastsocks/cpp/tcp/NativeByteBuffer.cpp:297-310 | a slice is written whole or not at all |
| `BufferStorages.ClassOf` | fastsocks/cpp/tcp/BufferStorage.cpp:34-58 | the smallest of the seven classes that holds the size, or none |
| `BufferStorages.BufferStorage.constructor` | fastsocks/cpp/tcp/BufferStorage.cpp:14-27 | the pool starts valid with five buffers of 8 and five of 128 bytes |
| `BufferStorages.BufferStorage.GetBuffer` | fastsocks/cpp/tcp/BufferStorage.cpp:29-82 | the buffer handed out was not live, is no longer pooled, has position 0 and limit == size <= capacity; it is the oldest of its class's list, which loses it, or new; the pooled buffers are exactly those in the lists, none is live or in two slots, every list holds only its class and stays within its bound |
| `BufferStorages.BufferStorage.ReuseFreeBuffer` | fastsocks/cpp/tcp/BufferStorage.cpp:84-128 | a live buffer leaves the live set; if its class exists and its list holds fewer than 80 buffers (of at most 128 bytes) or 10 (of more) it joins the end of that list, and otherwise no list changes; the pool invariant is kept |
| `BufferStorages.BufferStorage.Push` | fastsocks/cpp/tcp/BufferStorage.cpp:114-115 | a buffer joins the end of the list of its class, which stays within its bound |
| `BufferStorages.BufferStorage.Pop` | fastsocks/cpp/tcp/BufferStorage.cpp:65-68 | the oldest buffer of a class leaves its list, and no other list changes |
| `TcpConnections.TcpConnection.RestHeader` | fastsocks/cpp/tcp/TcpConnection.cpp:246-261 | an unfinished header becomes the carry-over, byte for byte |
| `TcpConnections.TcpConnection.KeepPartial` | fastsocks/cpp/tcp/TcpConnection.cpp:179-202 | an unfinished packet becomes the carry-over, byte for byte, with room for the whole packet |
| `TcpConnections.TcpConnection.Settle` | fastsocks/cpp/tcp/TcpConnection.cpp:212-222 | after a delivery the carry-over is given back when used up, else its tail moves to the front; the bytes still to parse are unchanged |
| `TcpConnections.TcpConnection.Deliver` | fastsocks/cpp/tcp/TcpConnection.cpp:203-222 | exactly the first packet of the bytes at hand is delivered, and what follows it remains |
| `TcpConnections.TcpConnection.TakePacket` | fastsocks/cpp/tcp/TcpConnection.cpp:162-222 | behind an accepted header: the packet is delivered, or header or packet is kept for later |
| `TcpConnections.TcpConnection.ParseOne` | fastsocks/cpp/tcp/TcpConnection.cpp:146-222 | one round of the loop does what one step of the one-piece parse does, refusal of the header included |
| `TcpConnections.TcpConnection.JoinHeader` | fastsocks/cpp/tcp/TcpConnection.cpp:99-114 | the chunk is put behind an unfinished header, in the same buffer or a larger one |
| `TcpConnections.TcpConnection.FillPacket` | fastsocks/cpp/tcp/TcpConnection.cpp:115-135 | the unfinished packet takes what it lacks from the chunk and leaves the rest of it |
| `TcpConnections.TcpConnection.ParseLoop` | fastsocks/cpp/tcp/TcpConnection.cpp:138-228 | the loop, with its switch to the postponed chunk, reaches the one-piece parse, and looks at a buffer given back exactly when it parses the carry-over, nothing is postponed and nothing is left |
| `TcpConnections.TcpConnection.Absorb` | fastsocks/cpp/tcp/TcpConnection.cpp:96-138 | the chunk joins the carry-over without losing or repeating a byte |
| `TcpConnections.TcpConnection.OnRecvData` | fastsocks/cpp/tcp/TcpConnection.cpp:94-229 | one call delivers, after what was delivered before, the packets of carry-over plus chunk parsed in one piece, and the new carry-over is exactly the unparsed rest; every buffer taken from the pool was given back exactly once or is the carry-over; the loop's last test looks at a buffer already given back if and only if there was a carry-over that this chunk uses up to its end |
| `TcpConnections.TcpConnection.TwoPiecesLookBack` | fastsocks/cpp/tcp/TcpConnection.cpp:211-223 | every message of at most 65515 body bytes that arrives in two pieces meets that condition |
| `TcpConnections.TcpConnection.ReceiveAll` | fastsocks/cpp/tcp/TcpSocket.cpp:107-127 | for every way a stream is cut into chunks, the packets delivered are those of parsing it in one piece and the carry-over is its unparsed rest |
| `ByteStreams.ByteStream.Append` | fastsocks/cpp/tcp/ByteStream.cpp:17-22 | the stream grows at its end by what remains in the buffer |
| `ByteStreams.ByteStream.HasData` | fastsocks/cpp/tcp/ByteStream.cpp:24-32 | true exactly when the stream is not empty |
| `ByteStreams.ByteStream.Get` | fastsocks/cpp/tcp/ByteStream.cpp:34-50 | the destination is filled with the longest prefix of the stream that fits, and the stream is unchanged |
| `ByteStreams.ByteStream.Discard` | fastsocks/cpp/tcp/ByteStream.cpp:52-66 | exactly the first count bytes leave the stream, across any number of buffers; each buffer is given back once, when it is used up, or is still queued |
| `ByteStreams.ByteStream.OnWritable` | fastsocks/cpp/tcp/TcpSocket.cpp:144-160 | whatever part of the offer the socket takes, bytes sent plus bytes still queued are the bytes queued before, and buffers given back plus buffers queued are those queued before |
| `NetworkMessages.NetworkMessage.SerializeToBuffer` | fastsocks/cpp/tcp/NetworkMessage.cpp:22-41 | the packet is the header and the rest of the body when the 16-bit length is true; in any case the length field is the 16-bit sum of header and body limit, and a packet long enough for a header says the command, the account and the sequence number |
| `NetworkMessages.NetworkMessage.WriteHeader` | fastsocks/cpp/tcp/NetworkMessage.cpp:29-34 | the twenty header bytes, which say the length, version 1, the command, the account and the sequence number in network order |
| `NetworkMessages.NetworkMessage.RoundTripIffTrueLength` | fastsocks/cpp/tcp/NetworkMessage.cpp:22-41 | what was printed parses back as the message if and only if the 16-bit length equals twenty plus the bytes that remain in the body |
| `NetworkMessages.NetworkMessage.ReadBodyLost` | fastsocks/cpp/tcp/NetworkMessage.cpp:22-41 | a body with one byte already read is announced one byte too long and never parses back |
| `NetworkMessages.NetworkMessage.LongBodyLost` | fastsocks/cpp/tcp/NetworkMessage.cpp:22-41 | a body of 65516 bytes is announced and printed as an empty packet |
| `NetworkMessages.BatchesAreWellFormed` | fastsocks/cpp/tcp/ConnectionsManager.cpp:360-389 | batching keeps every message whole and in order; each batch but the last reaches 3072 bytes, and none would without its last message |
| `NetworkMessages.FillBatch` | fastsocks/cpp/tcp/ConnectionsManager.cpp:377-383 | a batch buffer holds exactly its messages, one after the other |
| `NetworkMessages.TakeMessage` | fastsocks/cpp/tcp/ConnectionsManager.cpp:371-388 | one turn of the loop: the message joins the open batch, which leaves as one buffer when it is full or the list ends |
| `NetworkMessages.SendMessages` | fastsocks/cpp/tcp/ConnectionsManager.cpp:360-389 | the stream to be sent grows by exactly the messages in order, in the batches of the specification, each in a buffer of its own that is none of those already in use |
| `PooledMessages.Serialize` | fastsocks/cpp/tcp/ConnectionsManager.cpp:323-345 | serialising a request takes one buffer from the pool, gives the request's own back, and leaves the new one out exactly if the request wants an ack; no other buffer in the pool is touched |
| `PooledMessages.FirstInFirstOut` | fastsocks/cpp/tcp/BufferStorage.cpp:29-128 | a pooled buffer behind p others is handed out within a pass if and only if more than p buffers of its class are asked for |
| `PooledMessages.LengthsExactly` | fastsocks/cpp/tcp/BufferStorage.cpp:29-128 | how long each free list is at each point of a pass shows from the sizes, the flags and the lengths at its start |
| `PooledMessages.HandedOutAgain` | fastsocks/cpp/tcp/ConnectionsManager.cpp:319-345 | a message's buffer is handed out again within the pass if and only if its request wants no ack, its list has room for it, and as many later messages or batches ask for its class as that list then holds |
| `PooledMessages.DeletedIsGone` | fastsocks/cpp/tcp/BufferStorage.cpp:114-119 | a message's buffer given back to a full list is in no list any more, though the message is still to be copied |
| `PooledMessages.SecondTakesFirst` | fastsocks/cpp/tcp/ConnectionsManager.cpp:319-345 | with an empty free list, and the request's own buffer of another class, the second of two messages of a class gets the buffer of the first, if that wants no ack |
| `PooledMessages.SerializeAll` | fastsocks/cpp/tcp/ConnectionsManager.cpp:319-345 | after a pass over a real pool every message whose buffer was not handed on holds its packet, and every other one shares its buffer with a later message |
| `Links.RunConserves` | fastsocks/cpp/tcp/TcpSocket.cpp:99-165 | in every interleaving of sends, partial drains and arrivals of messages that fit, bytes seen, in flight and queued are the printed messages, and the receiver stands where the one-piece parse of the bytes seen stands |
| `Links.EndToEnd` | fastsocks/cpp/tcp/TcpSocket.cpp:99-165 | whatever messages of at most 65515 body bytes are sent, drained and received in whatever pieces, a prefix of them is delivered in order, and exactly all of them once nothing is queued or in flight |
| `Channels.PrintAll` | fastsocks/cpp/tcp/NetworkMessage.cpp:22-41 | each message of a list, in a buffer of its own, is serialised to as many bytes as its 16-bit length says, and to its printed form if its body has at most 65515 bytes |
| `Channels.QueueAll` | fastsocks/cpp/tcp/ConnectionsManager.cpp:360-389 | serialised in buffers of their own, batched and queued, messages lengthen the stream by exactly what they were serialised to, in order |
| `Channels.DrainSome` | fastsocks/cpp/tcp/TcpSocket.cpp:146-164 | a writable socket takes exactly the first bytes of the stream, as many as it accepts and the network buffer holds |
| `Channels.Channel.SendNow` | fastsocks/cpp/tcp/ConnectionsManager.cpp:360-389 | serialising, batching and queueing on the objects is the Send step of the link, with the printed forms as its bytes if all messages fit |
| `Channels.Channel.DrainNow` | fastsocks/cpp/tcp/TcpSocket.cpp:137-165 | a partial send from the queued buffers is the Drain step of the link by the number of bytes taken |
| `Channels.Channel.ArriveNow` | fastsocks/cpp/tcp/TcpSocket.cpp:107-127 | a read into the network buffer, handed to the connection, is the Arrive step of the link |
| `Channels.Channel.SendAll` | fastsocks/cpp/tcp/ConnectionsManager.cpp:360-389 | the object stays where the link is after the steps taken so far |
| `Channels.Channel.Writable` | fastsocks/cpp/tcp/TcpSocket.cpp:137-165 | likewise after a partial send |
| `Channels.Channel.Readable` | fastsocks/cpp/tcp/TcpSocket.cpp:103-135 | likewise after a read |
| `Channels.Channel.Delivers` | fastsocks/cpp/tcp/TcpSocket.cpp:99-165 | in every state the running objects can be in after messages that all fit, each with a buffer of its own until it was copied, the receiver is connected and has delivered a prefix of them, in order, and all of them with nothing carried over once nothing is queued or in flight |
| `RequestLifecycle.Connect` | fastsocks/cpp/tcp/TcpConnection.cpp:35-75 | opening a connection leaves the two request lists alone and never leaves the idle handshake |
| `RequestLifecycle.HandleRunning` | fastsocks/cpp/tcp/ConnectionsManager.cpp:222-285 | a turn over a running request keeps it, or completes it and removes just it |
| `RequestLifecycle.HandleQueued` | fastsocks/cpp/tcp/ConnectionsManager.cpp:289-345 | a turn over a queued request takes just it from the queue |
| `RequestLifecycle.MatchFrom` | fastsocks/cpp/tcp/ConnectionsManager.cpp:722-732 | the first running request with the sequence number of the reply and the command before it |
| `RequestInvariants.CompleteRunningKeeps` | fastsocks/cpp/tcp/ConnectionsManager.cpp:230-240 | completing a running request keeps the invariant: it is in no list afterwards and was not completed before |
| `RequestInvariants.ResendKeeps` | fastsocks/cpp/tcp/ConnectionsManager.cpp:242-262 | a running request is made into a message again only for a connection token it had no message for, after a handshake or allowed without login, and the invariant is kept; its earlier message for no token may have gone to the same socket |
| `RequestInvariants.StartKeeps` | fastsocks/cpp/tcp/ConnectionsManager.cpp:319-342 | starting a queued request gives it a fresh sequence number and keeps the invariant |
| `RequestInvariants.ExpireKeeps` | fastsocks/cpp/tcp/ConnectionsManager.cpp:264-284 | a request whose time is up is retried within the limit or completed with a code, and the invariant is kept |
| `RequestSendings.LiveProcess` | fastsocks/cpp/tcp/ConnectionsManager.cpp:214-348 | a whole pass over both lists keeps the invariant and does not crash |
| `RequestSendings.StartHanding` | fastsocks/cpp/tcp/ConnectionsManager.cpp:360-366 | the messages one pass makes are for distinct requests and for one token, and none of them was written to the socket under it |
| `RequestSendings.SendDataKeeps` | fastsocks/cpp/tcp/TcpConnection.cpp:77-92 | handing over a batch, dropping it for want of a socket or losing the connection over it keeps the invariant and leaves the rest to be handed over |
| `RequestSendings.HandOverKeeps` | fastsocks/cpp/tcp/ConnectionsManager.cpp:371-388 | so does the whole hand-over, however it is cut into batches |
| `RequestAnswers.EveryCut` | fastsocks/cpp/tcp/ConnectionsManager.cpp:371-388 | however the messages are cut into batches, some choice of the environment hands over exactly these batches in this order |
| `RequestSendings.WrittenAtMostTwice` | fastsocks/cpp/tcp/TcpConnection.cpp:77-92 | in every history a socket gets a request at most twice; of two writings the first was before the socket had its token and the second under that token |
| `RequestRuns.PacketKeeps` | fastsocks/cpp/tcp/ConnectionsManager.cpp:698-737 | handling a packet, handshake result and reply included, keeps the invariant |
| `RequestAnswers.ReplyExactly` | fastsocks/cpp/tcp/ConnectionsManager.cpp:722-732 | a reply completes exactly the one running request with its sequence number and the command below its own, and leaves every other as it is |
| `RequestAnswers.HandshakeAnswered` | fastsocks/cpp/tcp/Datacenter.cpp:162-174 | an accepted handshake logs in on the same connection; a refused one gives up the connection and tries for another, with the login undone |
| `RequestRuns.ClearUpKeeps` | fastsocks/cpp/tcp/ConnectionsManager.cpp:560-580 | logging out completes everything in both lists, keeps the invariant, and crashes exactly when there is no handshake |
| `RequestAnswers.LogoutExactly` | fastsocks/cpp/tcp/ConnectionsManager.cpp:560-580 | logging out completes every queued request and then every running one, in order, with the code for no login, forgets the account, and leaves no connection, no token and no handshake |
| `RequestAnswers.SubmittedExactly` | fastsocks/cpp/tcp/ConnectionsManager.cpp:537-557 | without an account a request is refused at once; with one it is scheduled with its command, flags and timeout, thirty seconds if none is given |
| `RequestAnswers.SendTaskExactly` | fastsocks/cpp/tcp/ConnectionsManager.cpp:550-555 | its task puts it at the end of the queue, where it waits without a handshake and meets its fate at once with one |
| `RequestAnswers.ConnectExactly` | fastsocks/cpp/tcp/TcpConnection.cpp:35-69 | a connection is tried for exactly if there is a network and none is open; a new socket is open exactly if the try succeeds, and the manager hears of a loss exactly if there is a handshake and the try fails or there is no network |
| `RequestAnswers.LostExactly` | fastsocks/cpp/tcp/TcpConnection.cpp:280-320 | a lost connection has no token and keeps the requests; it will be tried for again exactly if there is a handshake |
| `RequestAnswers.TriedAgainExactly` | fastsocks/cpp/tcp/TcpConnection.cpp:15-24 | the timer opens a connection exactly if one was lost, there is a network and the try succeeds |
| `RequestAnswers.ReopenedExactly` | fastsocks/cpp/tcp/TcpConnection.cpp:71-75 | reconnecting gives up token and login and keeps the requests; a new socket is open exactly if there is a network and the try succeeds |
| `RequestAnswers.HeaderRefusedExactly` | fastsocks/cpp/tcp/TcpConnection.cpp:150-160 | a refused header gives up token and login of an open connection and tries for another at once |
| `RequestAnswers.ConnectedExactly` | fastsocks/cpp/tcp/TcpConnection.cpp:322-330 | a socket that gets connected has the next token and keeps it exactly unless sending the handshake fails |
| `RequestAnswers.SetExactly` | fastsocks/cpp/tcp/ConnectionsManager.cpp:451-468 | account and network are as set, and a returning network is tried at once exactly with an account and a handshake |
| `RequestAnswers.AccountExactly` | fastsocks/cpp/tcp/ConnectionsManager.cpp:396-403 | setting an account changes nothing exactly if it is none or the one that is set; otherwise the next task sets it |
| `RequestAnswers.BegunExactly` | fastsocks/cpp/tcp/ConnectionsManager.cpp:169-173 | without a handshake the end of select begins one exactly if there is an account, and changes nothing otherwise |
| `RequestAnswers.NothingWithoutAccount` | fastsocks/cpp/tcp/ConnectionsManager.cpp:148-186 | from the start and without an account, nothing happens however often select returns and whatever is due |
| `RequestAnswers.PingExactly` | fastsocks/cpp/tcp/Datacenter.cpp:176-183 | a ping opens a missing connection, loses one exactly if sending fails, and otherwise changes nothing but the pause |
| `RequestAnswers.SelectMeets` | fastsocks/cpp/tcp/ConnectionsManager.cpp:174-186 | with a handshake the end of select brings every running request to its fate, after the ping if one is due |
| `RequestAnswers.PausedExactly` | fastsocks/cpp/tcp/ConnectionsManager.cpp:148-157 | a pause begins exactly when it was asked for and is due, and ends with every resumption; only one by the user takes back the asking |
| `RequestRuns.ResumeKeeps` | fastsocks/cpp/tcp/ConnectionsManager.cpp:420-441 | resuming keeps the invariant, and crashes exactly when the user resumes and there is no handshake |
| `RequestRuns.SetServerKeeps` | fastsocks/cpp/tcp/ConnectionsManager.cpp:410-418 | setting the only server closes and reopens the connection and keeps the invariant, and crashes exactly when there is no handshake |
| `RequestRuns.SelectTailKeeps` | fastsocks/cpp/tcp/ConnectionsManager.cpp:148-186 | the pause test, the start of the handshake, the ping and the pass over the requests keep the invariant, and crash exactly as Crashes says |
| `RequestRuns.StepKeeps` | fastsocks/cpp/tcp/ConnectionsManager.cpp:131-186 | every event keeps the whole invariant, and crashes exactly in the cases of the predicate Crashes: a task that looks at the connection, a pause that begins or a due ping, while the handshake is idle |
| `RequestRuns.RunKeeps` | fastsocks/cpp/tcp/ConnectionsManager.cpp:131-186 | the invariant holds after every run from the start, over all calls, tasks, socket events and timers, pausing, resuming and a forced change of server included |
| `RequestRuns.ExactlyOnePlace` | fastsocks/cpp/tcp/ConnectionsManager.cpp:214-348 | after every run each submitted request is in exactly one of scheduled, queued, running and completed, and a completed one was completed exactly once |
| `RequestRuns.RunIsAllowed` | fastsocks/cpp/tcp/ConnectionsManager.cpp:214-389 | in every run nothing is completed twice or made into a message after completion; a request gets at most one message for no token, its first, and one for each token, that one only after a handshake not since undone or when allowed without login; a message written was made before, for the socket's token if it has one, and never goes twice to one socket under one token |
| `RequestRuns.RunningDiscipline` | fastsocks/cpp/tcp/ConnectionsManager.cpp:214-348 | in every reachable state: an idle handshake means no running request, running requests have distinct non-negative sequence numbers and at most three retries, and no reply with the handshake or ping number matches one while fewer than 2^31 requests were sent |
| `RequestRuns.CrashesExactlyWhen` | fastsocks/cpp/tcp/ConnectionsManager.cpp:131-186 | the next event dereferences the missing connection if and only if the handshake is idle and it runs a logout, a resumption by the user or a forced change of server, begins a due pause, or sends a due ping with no account set |
| `RequestRuns.PingAfterLogoutCrashes` | fastsocks/cpp/tcp/ConnectionsManager.cpp:169-186 | a run that does: log in, connect, log out, and let a ping come due, whatever the network does |
| `RequestRuns.TasksBeforeHandshakeCrash` | fastsocks/cpp/tcp/ConnectionsManager.cpp:410-441 | runs that do: log out, resume, or set the only server, before the first handshake, for every account |
| `RequestRuns.PauseBeforeHandshakeCrashes` | fastsocks/cpp/tcp/ConnectionsManager.cpp:148-157 | a run that does: let a pause begin before the first handshake |
| `RequestRuns.RunWritesAtMostTwice` | fastsocks/cpp/tcp/TcpConnection.cpp:77-92 | in every run a socket gets a request at most twice; of two writings the first was before the socket had its token and the second under that token |
| `RequestRuns.WrittenTwice` | fastsocks/cpp/tcp/ConnectionsManager.cpp:242-262 | a run in which it does: a request is handed to the connecting socket before any handshake and to the same socket again after it |
| `RequestWritings.MessagesExactly` | fastsocks/cpp/tcp/ConnectionsManager.cpp:222-346 | with the socket open a pass makes a message for exactly the running requests that are resent and the queued ones that start, each told by its guard at the beginning of the pass |
| `RequestWritings.HandOverWrites` | fastsocks/cpp/tcp/ConnectionsManager.cpp:371-388 | an open socket gets each message handed over up to and with the first batch that fails exactly once, under its token, and no other |
| `RequestWritings.PassWrites` | fastsocks/cpp/tcp/ConnectionsManager.cpp:214-389 | so what a whole pass writes of any request to the open socket is determined by the messages made and the batches that fail |
| `RequestWritings.RunningWritten` | fastsocks/cpp/tcp/ConnectionsManager.cpp:242-262 | a pass writes a running request to the open socket, once more and under its token, if and only if the guard of the resending branch holds, no batch failing; without the guard never |
| `RequestWritings.QueuedWritten` | fastsocks/cpp/tcp/ConnectionsManager.cpp:289-345 | a pass writes a queued request to the open socket if and only if it starts: to a socket still connecting exactly if it may be resent |
| `RequestWritings.DoubledExactly` | fastsocks/cpp/tcp/ConnectionsManager.cpp:242-262 | in every run, a request that the connected socket got before it was connected gets there a second time at the end of select if and only if the guard of the resending branch holds |
| `RequestFates.DueExactly` | fastsocks/cpp/tcp/Request.cpp:47-53 | a request is timed out exactly if it has waited as long as its timeout, or the clock was set back by at most 2^64 less the timeout |
| `RequestFates.SetBackExpires` | fastsocks/cpp/tcp/Request.cpp:47-53 | a clock set back by one millisecond times out every request |
| `RequestFates.RunningMeets` | fastsocks/cpp/tcp/ConnectionsManager.cpp:222-286 | whatever the network does, a pass brings every running request to exactly one fate: failed for want of a connection, resent under the new token, left as it was, timed out, tried again with the clock restarted, or over after three retries, told by the clock, its flags, its token and the connection at the beginning of the pass |
| `RequestFates.TimedOutExactly` | fastsocks/cpp/tcp/ConnectionsManager.cpp:264-285 | on its own connection a running request is completed with a timeout if and only if it may not be resent and its time is up, with the retry limit if and only if it may, the time is up and three retries are used, is tried again if and only if fewer are, and is otherwise left as it was |
| `RequestFates.QueuedMeets` | fastsocks/cpp/tcp/ConnectionsManager.cpp:288-346 | a pass brings every queued request to exactly one fate: refused without a connection or without login, over at once if it wants no ack, or running with the token, the clock of its turn and the sequence number that counts the requests started before it |
| `ConnectionsManagers.ConnectionsManager.OpenConnection` | fastsocks/cpp/tcp/TcpConnection.cpp:35-75 | connecting on the fields is the step of the state machine |
| `ConnectionsManagers.ConnectionsManager.CloseConnection` | fastsocks/cpp/tcp/TcpConnection.cpp:269-278 | closing on the fields is the step of the state machine |
| `ConnectionsManagers.ConnectionsManager.Disconnected` | fastsocks/cpp/tcp/TcpConnection.cpp:280-320 | losing the connection resets the token and, unless there is no handshake, arranges to reconnect |
| `ConnectionsManagers.ConnectionsManager.RunningTurn` | fastsocks/cpp/tcp/ConnectionsManager.cpp:230-285 | one turn over the running list is the turn of the state machine, says whether the request stays, and pushes exactly the message it logs |
| `ConnectionsManagers.ConnectionsManager.QueueTurn` | fastsocks/cpp/tcp/ConnectionsManager.cpp:295-345 | one turn over the queue is the turn of the state machine, and pushes exactly the message it logs |
| `ConnectionsManagers.ConnectionsManager.ProcessRunning` | fastsocks/cpp/tcp/ConnectionsManager.cpp:221-286 | the erasing loop over the running list is the recursive pass of the specification |
| `ConnectionsManagers.ConnectionsManager.ProcessQueued` | fastsocks/cpp/tcp/ConnectionsManager.cpp:288-346 | the erasing loop over the queue is the recursive pass of the specification |
| `ConnectionsManagers.ConnectionsManager.ProcessRequestQueue` | fastsocks/cpp/tcp/ConnectionsManager.cpp:214-348 | the whole method, both erasing loops, the list of messages they gather and its hand-over, refines the step that the invariants are proved about |
| `ConnectionsManagers.ConnectionsManager.SendBatch` | fastsocks/cpp/tcp/TcpConnection.cpp:77-92 | sending a batch on the fields is the step of the state machine |
| `ConnectionsManagers.ConnectionsManager.SendMessageToConnection` | fastsocks/cpp/tcp/ConnectionsManager.cpp:360-389 | the hand-over of the gathered messages is that of the specification |
| `ConnectionsManagers.ConnectionsManager.OnReply` | fastsocks/cpp/tcp/ConnectionsManager.cpp:722-732 | exactly the first matching running request is completed and removed, or none |
| `ConnectionsManagers.ConnectionsManager.DoClearUp` | fastsocks/cpp/tcp/ConnectionsManager.cpp:560-580 | logout on the fields is the step of the state machine |
| `ConnectionsManagers.ConnectionsManager.OnData` | fastsocks/cpp/tcp/ConnectionsManager.cpp:698-737 | handling a packet, handshake result and reply included, is the step of the state machine |
| `ConnectionsManagers.ConnectionsManager.SendRequest` | fastsocks/cpp/tcp/ConnectionsManager.cpp:537-557 | submitting is the step of the state machine |
| `ConnectionsManagers.ConnectionsManager.RunPendingTask` | fastsocks/cpp/tcp/ConnectionsManager.cpp:614-627 | running the oldest task, of whatever kind, is the step of the state machine |
| `ConnectionsManagers.ConnectionsManager.SelectRest` | fastsocks/cpp/tcp/ConnectionsManager.cpp:148-186 | the end of select on the fields is the step of the state machine |
| `ConnectionsManagers.ConnectionsManager.OnConnected` | fastsocks/cpp/tcp/TcpConnection.cpp:322-330 | so is a socket that gets connected |
| `ConnectionsManagers.ConnectionsManager.Handle` | fastsocks/cpp/tcp/ConnectionsManager.cpp:131-186 | for every event the object takes exactly the step of the machine, so whatever is proved of its runs holds of the object |
| `BerHeaders.GetObject` | fastsocks/cpp/boringssl/crypto/asn1/asn1_lib.c:128-189 | an accepted header lies inside the input, its contents too unless marked too long, and an indefinite length is constructed |
| `BerHeaders.GetUndoesPut` | fastsocks/cpp/boringssl/crypto/asn1/asn1_lib.c:128-260 | for every tag, class, constructed flag and length in int range, reading what was written gives it back, with the exact condition under which the (int) cast of the remaining length makes the reader refuse |
| `BerHeaders.LongContentRefused` | fastsocks/cpp/boringssl/crypto/asn1/asn1_lib.c:128-260 | an input that is refused: the header of an empty INTEGER in front of 2^31 octets |
| `BerHeaders.GetUndoesPutInRange` | fastsocks/cpp/boringssl/crypto/asn1/asn1_lib.c:128-260 | in inputs of at most INT_MAX bytes reading always gives back what was written |
| `BerHeaders.LongFormExactly` | fastsocks/cpp/boringssl/crypto/asn1/asn1_lib.c:192-227 | a long-form length, leading zeros and all, is read exactly if it has at most eight octets, a value below 2^63 and an octet behind it |
| `BerHeaders.PutObject` | fastsocks/cpp/boringssl/crypto/asn1/asn1_lib.c:232-260 | exactly the header octets are written, and nothing else changes |
| `BerHeaders.PutLength` | fastsocks/cpp/boringssl/crypto/asn1/asn1_lib.c:271-292 | exactly the length octets are written |
| `BerHeaders.PutTag` | fastsocks/cpp/boringssl/crypto/asn1/asn1_lib.c:243-254 | the base-128 digits of a tag, with continuation bits |
| `BerHeaders.ReadLength` | fastsocks/cpp/boringssl/crypto/asn1/asn1_lib.c:191-228 | the length loop reads what the specification reads |
| `BerHeaders.ReadHighTag` | fastsocks/cpp/boringssl/crypto/asn1/asn1_lib.c:141-157 | the tag loop reads what the specification reads, or refuses overflow and truncation |
| `BerHeaders.ReadObject` | fastsocks/cpp/boringssl/crypto/asn1/asn1_lib.c:128-189 | the reader as it runs is the function the round trip is proved about |
| `BerHeaders.ObjectSize` | fastsocks/cpp/boringssl/crypto/asn1/asn1_lib.c:294-320 | the size is header octets plus contents, plus two for the indefinite form |
| `BerScan.ReadTlen` | fastsocks/cpp/boringssl/crypto/asn1/tasn_dec.c:1253-1340 | header and tag check as it runs |
| `BerScan.TagDecides` | fastsocks/cpp/boringssl/crypto/asn1/tasn_dec.c:1254-1330 | a written header in front of its content is taken if and only if no tag is asked for or both its tag and its class are the expected ones; indefinite contents reach to the end |
| `BerScan.EocIsAnEmptyElement` | fastsocks/cpp/boringssl/crypto/asn1/tasn_dec.c:1233-1244 | the end-of-contents octets are exactly the header of an empty primitive element with tag 0 |
| `BerScan.CountingFollowsGrammar` | fastsocks/cpp/boringssl/crypto/asn1/tasn_dec.c:1085-1133 | counting expected end-of-contents octets agrees with the nested grammar of indefinite-length elements, for every input and every count |
| `BerScan.CountEnds` | fastsocks/cpp/boringssl/crypto/asn1/tasn_dec.c:1096-1133 | the counting loop finds the end of the contents as the nested grammar defines it, or fails exactly when there is none |
| `BerScan.FindEnd` | fastsocks/cpp/boringssl/crypto/asn1/tasn_dec.c:1085-1133 | the end of an element, definite or not, within the input |
| `BerScan.CollectingYieldsLeaves` | fastsocks/cpp/boringssl/crypto/asn1/tasn_dec.c:1150-1212 | collecting gives the leaves of the parsed string tree in order, or nothing when it is malformed or nested deeper than the limit |
| `BerScan.Collect` | fastsocks/cpp/boringssl/crypto/asn1/tasn_dec.c:1150-1212 | the recursive loop appends to the buffer exactly what the specification collects |
| `BerScan.CollectString` | fastsocks/cpp/boringssl/crypto/asn1/tasn_dec.c:1150-1229 | from an empty nesting the collected octets are the leaves of the tree, and failure is exactly malformedness or a depth above the limit |
| `Asn1Integers.ContentValue` | fastsocks/cpp/boringssl/crypto/asn1/a_int.c:115-175 | the content octets, read as two's complement, are the integer |
| `Asn1Integers.ContentMinimal` | fastsocks/cpp/boringssl/crypto/asn1/a_int.c:115-175 | without a leading zero in the magnitude the first nine bits of the content are not all alike |
| `Asn1Integers.ContentShortest` | fastsocks/cpp/boringssl/crypto/asn1/a_int.c:115-175 | no shorter octets stand for the integer: whatever means its value is at least as long as its content |
| `Asn1Integers.DecodeValue` | fastsocks/cpp/boringssl/crypto/asn1/a_int.c:179-258 | sign and magnitude decoded are those of the two's-complement number the octets mean |
| `Asn1Integers.RoundTrip` | fastsocks/cpp/boringssl/crypto/asn1/a_int.c:115-258 | decoding the content octets of any integer gives its value back |
| `Asn1Integers.Encode` | fastsocks/cpp/boringssl/crypto/asn1/a_int.c:115-175 | the backward byte loops write exactly the content octets |
| `Asn1Integers.NegateInto` | fastsocks/cpp/boringssl/crypto/asn1/a_int.c:155-171 | the two's complement of the magnitude is written in place from the back |
| `Asn1Integers.NeedsPad` | fastsocks/cpp/boringssl/crypto/asn1/a_int.c:127-147 | the padding loop decides exactly when a pad octet is needed |
| `Asn1Integers.Magnitude` | fastsocks/cpp/boringssl/crypto/asn1/a_int.c:215-242 | the magnitude of a negative number, one octet longer exactly for zeros behind a dropped 0xFF |
| `Asn1Integers.DecodeContent` | fastsocks/cpp/boringssl/crypto/asn1/a_int.c:179-258 | the decoder as it runs is the function the value is proved about |
| `UtfLoops.Resume` | fastsocks/cpp/breakpad/common/convert_UTF.c:354-422 | for each of the six conversions: stopping for lack of room and resuming from the returned pointers gives the output of one run |
| `UtfLoops.ResumedCode` | fastsocks/cpp/breakpad/common/convert_UTF.c:426-474 | for any turn: the resumed run returns the code of the one run if and only if no error was noted before the break, or it ends in an error itself |
| `UtfLoops.ResumedCodeExactly` | fastsocks/cpp/breakpad/common/convert_UTF.c:426-474 | for any conversion of single units: the codes differ if and only if a unit that is noted lies before the break and the rest of the source is good and fits |
| `UtfLoops.BackAgain` | fastsocks/cpp/breakpad/common/convert_UTF.c:233-535 | a conversion that reaches the end is undone by another whose turns undo its turns |
| `UtfLoops.Run` | fastsocks/cpp/breakpad/common/convert_UTF.c:354-422 | the loop over source and target pointers writes the output of the specification, leaves the rest of the target alone and returns its code |
| `UtfLoops.StopIsTheTurns` | fastsocks/cpp/breakpad/common/convert_UTF.c:354-422 | a conversion that does not reach the end stops with the code of the turn it stops at |
| `UtfConversion.LegalExactly` | fastsocks/cpp/breakpad/common/convert_UTF.c:313-336 | the test accepts a sequence if and only if it is well-formed by section 4 of RFC 3629, or starts with ED or F4 followed by a byte below 80 and otherwise proper trailing bytes |
| `UtfConversion.LegalButMalformed` | fastsocks/cpp/breakpad/common/convert_UTF.c:321-330 | ED 41 80 is accepted though malformed, and stands for the character written EC 81 80 |
| `UtfConversion.LegalScalar` | fastsocks/cpp/breakpad/common/convert_UTF.c:381-417 | whatever passes the test stands for a character that is no surrogate and at most 10FFFF |
| `UtfConversion.TrailingCounts` | fastsocks/cpp/breakpad/common/convert_UTF.c:193-202 | the table holds one less than the one bits a byte starts with, nothing for a following byte, and five at most |
| `UtfConversion.WrittenBack` | fastsocks/cpp/breakpad/common/convert_UTF.c:287-293 | an accepted sequence is written again as it was if and only if it is well-formed |
| `UtfConversion.Utf8Read` | fastsocks/cpp/breakpad/common/convert_UTF.c:373-381 | the bytes written for a character pass the test and are read as that character |
| `UtfConversion.Gather` | fastsocks/cpp/breakpad/common/convert_UTF.c:373-381 | the add-and-shift steps and the offset, in 32 bits, compute the character |
| `UtfConversion.PutUtf8` | fastsocks/cpp/breakpad/common/convert_UTF.c:287-293 | the bytes written from the back are the encoding, and nothing else changes |
| `UtfConversion.From8To16` | fastsocks/cpp/breakpad/common/convert_UTF.c:354-422 | a turn of this loop uses source, writes what fits, and would write the same into any room it fits |
| `UtfConversion.From8To32` | fastsocks/cpp/breakpad/common/convert_UTF.c:478-535 | the same for this loop |
| `UtfConversion.From16To8` | fastsocks/cpp/breakpad/common/convert_UTF.c:233-298 | the same for this loop |
| `UtfConversion.From16To32` | fastsocks/cpp/breakpad/common/convert_UTF.c:130-182 | the same for this loop |
| `UtfConversion.From32To8` | fastsocks/cpp/breakpad/common/convert_UTF.c:426-474 | the same for this loop |
| `UtfConversion.From32To16` | fastsocks/cpp/breakpad/common/convert_UTF.c:82-126 | the same for this loop |
| `UtfRoundTrips.Utf8ThroughUtf16` | fastsocks/cpp/breakpad/common/convert_UTF.c:354-422 | of the UTF-8 sources whose conversion to UTF-16 reports success, exactly the well-formed ones come back unchanged from the strict conversion back |
| `UtfRoundTrips.Utf8ThroughUtf32` | fastsocks/cpp/breakpad/common/convert_UTF.c:478-535 | the same through UTF-32 |
| `UtfRoundTrips.Utf16Through` | fastsocks/cpp/breakpad/common/convert_UTF.c:233-298 | strict UTF-16 to UTF-8 or UTF-32 and back is the identity whenever the first step reports success |
| `UtfRoundTrips.NothingSkipped` | fastsocks/cpp/breakpad/common/convert_UTF.c:130-182 | the characters a conversion from UTF-16 writes, strict or lenient, are all the units up to where it stops, each once and in order, lone surrogates included |
| `UtfRoundTrips.Utf32Through` | fastsocks/cpp/breakpad/common/convert_UTF.c:426-474 | strict UTF-32 to UTF-8 or UTF-16 and back is the identity whenever the first step reports success |
| `UtfRoundTrips.WritesText` | fastsocks/cpp/breakpad/common/convert_UTF.c:233-298 | a conversion whose turns write well-formed characters writes only well-formed UTF-8, whatever it reads and wherever it stops |
| `UtfRoundTrips.StrictWritesText` | fastsocks/cpp/breakpad/common/convert_UTF.c:233-298 | both strict conversions to UTF-8 do |
| `UtfStops.From8To16Stops` | fastsocks/cpp/breakpad/common/convert_UTF.c:354-422 | UTF-8 to UTF-16 stops with source exhausted if and only if the character at the returned pointer is cut short by the end, with source illegal if and only if it is all there and neither well-formed nor of the form taken after ED and F4, and with success if and only if the end is reached |
| `UtfStops.From8To32Stops` | fastsocks/cpp/breakpad/common/convert_UTF.c:478-535 | the same for UTF-8 to UTF-32 |
| `UtfStops.From16To8Stops` | fastsocks/cpp/breakpad/common/convert_UTF.c:233-298 | UTF-16 to UTF-8 is exhausted if and only if a first surrogate ends the source, and refuses, if strict, exactly an unpaired one |
| `UtfStops.From16To32Stops` | fastsocks/cpp/breakpad/common/convert_UTF.c:130-177 | the same for UTF-16 to UTF-32 |
| `UtfStops.From32To8Stops` | fastsocks/cpp/breakpad/common/convert_UTF.c:426-474 | UTF-32 to UTF-8 is never exhausted and stops at a surrogate if and only if it is strict |
| `UtfStops.From32To16Stops` | fastsocks/cpp/breakpad/common/convert_UTF.c:82-127 | the same for UTF-32 to UTF-16, if there is room left |
| `UtfStops.TextCut` | fastsocks/cpp/breakpad/common/convert_UTF.c:354-422 | a well-formed text cut anywhere converts with success if the cut is between two characters, and is exhausted, never refused, everywhere else |
| `UtfRoundTrips.ResumedCode32To8` | fastsocks/cpp/breakpad/common/convert_UTF.c:426-474 | UTF-32 to UTF-8: the resumed run's code differs from that of one run if and only if a value above 10FFFF lies before the returned source pointer and every later value is legal and they fit |
| `UtfRoundTrips.ResumedCode32To16` | fastsocks/cpp/breakpad/common/convert_UTF.c:82-127 | the same for strict UTF-32 to UTF-16 |
| `UtfRoundTrips.ResumedCodeOthers` | fastsocks/cpp/breakpad/common/convert_UTF.c:82-535 | all other conversions, strict or lenient: the resumed run always returns the code of one run |
| `UtfRoundTrips.MalformedAccepted` | fastsocks/cpp/breakpad/common/convert_UTF.c:313-336 | a malformed source whose strict conversion reports success |
| `UtfRoundTrips.ErrorLost` | fastsocks/cpp/breakpad/common/convert_UTF.c:446-462 | an illegal value written before a break for lack of room is reported by one run and not by the run that resumes |
| `Utf8Codes.GetUndoesPut` | fastsocks/cpp/boringssl/crypto/asn1/a_utf8.c:75-210 | decoding an encoding, whatever follows it, gives back value and length if and only if the value is below 2^31; above, what is decoded is the value without its upper bits, or the overlong error |
| `Utf8Codes.HighBitsDropped` | fastsocks/cpp/boringssl/crypto/asn1/a_utf8.c:75-210 | the value C0000000 comes back as 40000000 |
| `Utf8Codes.PutUndoesGet` | fastsocks/cpp/boringssl/crypto/asn1/a_utf8.c:75-210 | re-encoding whatever is accepted reproduces its bytes, so no overlong form is ever accepted |
| `Utf8Codes.RefusedExactly` | fastsocks/cpp/boringssl/crypto/asn1/a_utf8.c:75-145 | every refusal: nothing there, a byte that starts no character, too few bytes, a byte that does not follow, or an overlong form, each code exactly for its reason, told from the leading one bits and the first two bytes |
| `Utf8Codes.WrittenIsPut` | fastsocks/cpp/boringssl/crypto/asn1/a_utf8.c:154-210 | the six unrolled cases write the one general form |
| `Utf8Codes.Putc` | fastsocks/cpp/boringssl/crypto/asn1/a_utf8.c:154-210 | writes the encoding in place and returns its length, -1 and nothing without room, or only the length without a string |
| `JulianDates.DateUndone` | fastsocks/cpp/boringssl/crypto/time_support.c:87-106 | every non-negative day number becomes a date of the Gregorian calendar, month lengths and leap years included, which becomes that day number again |
| `JulianDates.JulianUndone` | fastsocks/cpp/boringssl/crypto/time_support.c:87-106 | every date of the proleptic Gregorian calendar from day number zero on is recovered from its day number |
| `JulianDates.AdjMoves` | fastsocks/cpp/boringssl/crypto/time_support.c:109-178 | an adjusted time is a proper time exactly offset days and seconds from the old one |
| `JulianDates.AdjSucceedsExactly` | fastsocks/cpp/boringssl/crypto/time_support.c:150-178 | the date of the moved instant decides: the adjustment succeeds exactly from the year 1900 to the year 9999, and then shows that date and time of day |
| `JulianDates.DiffMeans` | fastsocks/cpp/boringssl/crypto/time_support.c:180-212 | the difference is the distance of the instants, day and second parts of one sign, and is refused exactly before day number zero |
| `JulianDates.DiffUndoesAdj` | fastsocks/cpp/boringssl/crypto/time_support.c:150-212 | the difference to an adjusted time is the adjustment, or is refused exactly when the old time lies before day number zero |
| `JulianDates.DiffRefused` | fastsocks/cpp/boringssl/crypto/time_support.c:150-212 | a time before day number zero that is moved to the first day of the year 2000, and whose difference to it is refused |
| `JulianDates.ConvertJulian` | fastsocks/cpp/boringssl/crypto/time_support.c:93-106 | the conversion as it runs step by step |
| `JulianDates.Tm.Adjust` | fastsocks/cpp/boringssl/crypto/time_support.c:150-178 | the broken-down time is moved in place, or left alone on failure; the int product of the offset's days is taken with wrap-around and the seconds left over come out right |
| `JulianDates.Tm.DifferenceTo` | fastsocks/cpp/boringssl/crypto/time_support.c:180-212 | the difference as it runs |
| `AesIge.AesIsLawful` | fastsocks/cpp/boringssl/crypto/aes/aes_ige.c:105-109 | sixteen-byte blocks under exclusive-or, with any permutation and its inverse, are an instance |
| `AesIge.DecryptUndoesEncrypt` | fastsocks/cpp/boringssl/crypto/aes/aes_ige.c:79-204 | decryption undoes encryption for every whole-block message and every pair of vectors |
| `AesIge.EncryptUndoesDecrypt` | fastsocks/cpp/boringssl/crypto/aes/aes_ige.c:79-204 | and encryption undoes decryption |
| `AesIge.EncryptInPieces` | fastsocks/cpp/boringssl/crypto/aes/aes_ige.c:116-145 | encrypting in pieces with the vectors left over is encrypting at once |
| `AesIge.DecryptInPieces` | fastsocks/cpp/boringssl/crypto/aes/aes_ige.c:172-202 | decrypting in pieces with the vectors left over is decrypting at once |
| `AesIge.EncryptChasing` | fastsocks/cpp/boringssl/crypto/aes/aes_ige.c:94-118 | with distinct buffers, the vectors being pointers into them |
| `AesIge.EncryptCopying` | fastsocks/cpp/boringssl/crypto/aes/aes_ige.c:119-145 | with one buffer or two |
| `AesIge.DecryptChasing` | fastsocks/cpp/boringssl/crypto/aes/aes_ige.c:149-174 | with distinct buffers, the vectors being pointers into them |
| `AesIge.DecryptCopying` | fastsocks/cpp/boringssl/crypto/aes/aes_ige.c:175-202 | with one buffer or two |
| `AesIge.IgeEncrypt` | fastsocks/cpp/boringssl/crypto/aes/aes_ige.c:79-204 | all four paths compute the specification and leave the same vectors, so the pointer-chasing path equals the copying path |
| `AesIge.BiDecryptUndoesBiEncrypt` | fastsocks/cpp/boringssl/crypto/aes/aes_ige.c:213-323 | decryption in both directions undoes encryption in both directions |
| `AesIge.BiInPlaceExactly` | fastsocks/cpp/boringssl/crypto/aes/aes_ige.c:239-252 | encryption in place is undone if and only if its forward pass keeps every block but the last: the block for the second vector is read after it was overwritten |
| `AesIge.BiInPlaceFixed` | fastsocks/cpp/boringssl/crypto/aes/aes_ige.c:239-252 | the same on the message alone: the first block is a fixed point up to the vectors, and each later block but the last differs from the one before it by a fixed point of the cipher |
| `AesIge.BiInPlaceSafe` | fastsocks/cpp/boringssl/crypto/aes/aes_ige.c:239-252 | encryption in place is undone under every permutation of sixteen-byte blocks if and only if the message has at most one block, whatever the vectors |
| `AesIge.BiInPlaceLoses` | fastsocks/cpp/boringssl/crypto/aes/aes_ige.c:239-252 | two sixteen-byte blocks encrypted in place that do not come back |
| `AesIge.ForwardPass` | fastsocks/cpp/boringssl/crypto/aes/aes_ige.c:236-252 | the forward pass for two buffers, and what it computes for one |
| `AesIge.BackwardPass` | fastsocks/cpp/boringssl/crypto/aes/aes_ige.c:254-276 | the backward pass in place |
| `AesIge.BiIgeEncrypt` | fastsocks/cpp/boringssl/crypto/aes/aes_ige.c:231-277 | the specification for two buffers, and exactly what becomes of one |
| `AesIge.BiIgeDecrypt` | fastsocks/cpp/boringssl/crypto/aes/aes_ige.c:278-322 | the specification, for one buffer or two |
| `BufferingBio.Bio.constructor` | fastsocks/cpp/boringssl/crypto/bio/buffer.c:90-112 | both buffers start empty and nothing was returned or accepted |
| `BufferingBio.Bio.Read` | fastsocks/cpp/boringssl/crypto/bio/buffer.c:141-208 | bytes returned, buffered and upstream are the original stream after every call; a short count or a code only because the next BIO stopped, and a code only when nothing was read |
| `BufferingBio.Bio.ReadDirect` | fastsocks/cpp/boringssl/crypto/bio/buffer.c:176-193 | a read larger than the buffer goes past it without losing a byte |
| `BufferingBio.Bio.Write` | fastsocks/cpp/boringssl/crypto/bio/buffer.c:210-284 | bytes sent and pending are the bytes accepted after every call; a short count or a code only because the next BIO stopped, off + len never exceeds the size |
| `BufferingBio.Bio.Drain` | fastsocks/cpp/boringssl/crypto/bio/buffer.c:240-256 | what is pending goes on in order until it is gone or the next BIO stops |
| `BufferingBio.Bio.WriteDirect` | fastsocks/cpp/boringssl/crypto/bio/buffer.c:264-279 | writes as large as the buffer go past it in order |
| `BufferingBio.Bio.Flush` | fastsocks/cpp/boringssl/crypto/bio/buffer.c:375-395 | success means everything accepted was sent; failure returns the code and keeps the rest pending |
| `BufferingBio.Bio.Gets` | fastsocks/cpp/boringssl/crypto/bio/buffer.c:428-476 | the next bytes of the stream up to and with the first newline, closed by a zero, cut short only by the size or by the next BIO |
| `RunOnce.ExactlyOnce` | fastsocks/cpp/boringssl/crypto/thread_win.c:34-75 | for any number of threads and every interleaving: init is begun at most once, every caller that is out came out after it finished, nobody aborts |
| `RunOnce.Progress` | fastsocks/cpp/boringssl/crypto/thread_win.c:50-74 | from every reachable state three steps suffice to let a waiting caller out |
| `RunOnce.RunKeeps` | fastsocks/cpp/boringssl/crypto/thread_win.c:34-75 | the word is 0, 1 or 2 and says exactly whether nobody began, all is over, or one thread is inside |
| `RefCounts.Linearises` | fastsocks/cpp/boringssl/crypto/refcount_c11.c:37-65 | in every run, spurious failures included, the effects in the order they took place are what the documented saturating counter does one operation at a time, with the same reports |
| `RefCounts.EffectIsTheCallers` | fastsocks/cpp/boringssl/crypto/refcount_c11.c:37-65 | an effect takes place in the step that ends its own call and changes no other thread |
| `RefCounts.Balance` | fastsocks/cpp/boringssl/crypto/internal.h:359-376 | without saturation the count is the balance of increments and decrements |
| `RefCounts.Reports` | fastsocks/cpp/boringssl/crypto/refcount_c11.c:49-65 | from a positive count, the reports of zero are as many as the increments from zero, plus one when the count is zero |
| `RefCounts.ExactlyOneReport` | fastsocks/cpp/boringssl/crypto/internal.h:366-376 | in a run that never saturates and never increments a count at zero, exactly one decrement reports zero if and only if every reference was given up |
| `RefCounts.TwoReports` | fastsocks/cpp/boringssl/crypto/refcount_c11.c:37-65 | with an increment from zero in between, two decrements report zero |
| `Md5.AddBitsAdds` | fastsocks/cpp/breakpad/common/md5.cc:65-70 | the two-word bit count with its carry counts modulo 2^64 |
| `Md5.Context.constructor` | fastsocks/cpp/breakpad/common/md5.cc:46-55 | the initial words and an empty message |
| `Md5.Context.Update` | fastsocks/cpp/breakpad/common/md5.cc:61-103 | the context stands for the old message with the data behind it, however the data was cut |
| `Md5.Context.Final` | fastsocks/cpp/breakpad/common/md5.cc:109-148 | the digest is the compression function folded over the message padded as sections 3.1 and 3.2 of RFC 1321 say, and the context is wiped |
| `Md5.FoldEnding` | fastsocks/cpp/breakpad/common/md5.cc:114-138 | the padding ends one block or two, as the count of bytes over says |
| `Md5.DigestOf` | fastsocks/cpp/breakpad/common/md5.cc:46-148 | for every split of a message into updates the digest is that of the whole message |
| `Md5.DigestKept` | fastsocks/cpp/breakpad/common/md5.cc:46-56 | under a transform that keeps its words every digest is 01 23 45 67 89 ab cd ef fe dc ba 98 76 54 32 10, the initial words of RFC 1321 in order |
| `Md5.PaddedExactly` | fastsocks/cpp/breakpad/common/md5.cc:108-140 | the padded message is the message, a byte 80, zeros and, in its last eight bytes read little-endian, its length in bits modulo 2^64, and is the shortest such number of blocks |
| `Md5.DigestOfLastBlock` | fastsocks/cpp/breakpad/common/md5.cc:137-146 | under a transform that looks at its block only, the digest read as four little-endian words is what it makes of the last block, whose last eight bytes are the length in bits |
| `Base64.DecodeUndoesEncode` | fastsocks/cpp/boringssl/crypto/base64/base64.c:177-263 | decoding an encoding is the identity on every byte string |
| `Base64.EncodeUndoesDecode` | fastsocks/cpp/boringssl/crypto/base64/base64.c:177-263 | what decodes is the encoding of what it gives if and only if the bits of the last character that no byte takes are zero |
| `Base64.SpareBitsDropped` | fastsocks/cpp/boringssl/crypto/base64/base64.c:177-263 | a text that decodes and is not the encoding of what it gives: "QR==" for "QQ==" |
| `Base64.EncodeBlock` | fastsocks/cpp/boringssl/crypto/base64/base64.c:177-207 | the loop writes the encoding and a zero after it, and nothing else changes |
| `Base64.DecodeBase64` | fastsocks/cpp/boringssl/crypto/base64/base64.c:217-263 | succeeds if and only if the text decodes and the output has room for three bytes in four characters, and then writes exactly the decoded bytes |
| `Base64Streams.Encoder.constructor` | fastsocks/cpp/boringssl/crypto/base64/base64.c:114-118 | an empty context |
| `Base64Streams.Encoder.Update` | fastsocks/cpp/boringssl/crypto/base64/base64.c:120-163 | what comes out follows what came out before: whole lines of 48 bytes, each ended by a newline, the rest held |
| `Base64Streams.Encoder.Final` | fastsocks/cpp/boringssl/crypto/base64/base64.c:165-175 | all that was ever written is the whole input in lines, the last possibly shorter; a zero follows the last line and the buffer beyond it is untouched |
| `Base64Streams.Armour` | fastsocks/cpp/boringssl/crypto/base64/base64.c:114-175 | the text of a stream depends only on the concatenation of its pieces |
| `Base64Streams.ArmouredExactly` | fastsocks/cpp/boringssl/crypto/base64/base64.c:96-175 | the text of a stream without its newlines is the encoding of the whole, and its newlines are exactly every 65th character and the last |

## Left out

- The pool behind the packet path: `TcpConnections` and `NetworkMessages` take a new buffer of the pool's class capacity through `BufferStorages.Acquire`; the pool itself is proved separately, and the taking and giving back of the carry-over is accounted for (`TcpConnection.Balanced`). That a buffer given back is looked at again is stated by `OnRecvData`; what the pool or the allocator may have done to it by then is not.
- BufferStorages.Acquire: does not reuse pooled memory, because the packet path depends only on position, limit and capacity.
- Channels.Channel.Delivers: does not cover runs with a message of more than 65515 body bytes, because what that is serialised to is not its printed form (`RoundTripIffTrueLength`), nor messages without ack that lose their buffer, because it then holds another message or is deleted (`PooledMessages.HandedOutAgain`, `PooledMessages.DeletedIsGone`).
- Channels.QueueAll: gives every message a buffer of its own until it is copied, because with a shared buffer the earlier message's bytes are those of the later one.
- PooledMessages.SerializeAll: states which message a buffer holds when all messages are serialised; that a batch may then be handed such a buffer is stated of the buffer (`HandedOutAgain`) and not of the bytes copied.
- A delivery is taken not to re-enter the connection: a refused handshake closes the connection from inside a delivery while the loop of `onRecvData` goes on, and what the loop then does is not modelled.
- Requests are values owned by the lists they are in; the sharing of their body buffers between retries is not modelled.
- `clearUp` removes the nodes of the running list through the other list (`fastsocks/cpp/tcp/ConnectionsManager.cpp:573`); the model removes them from the running list and does not capture what that does to the other list's stored length.
- `TcpConnectionStatusClosed`, which the code sets and overwrites within one call of `closeConnect`, is not a state of its own.
- Pause and ping intervals, the address and port to try next, and the timers: which of them comes due is an input of the events. How many messages a batch takes, and whether handing it to the socket fails, are inputs as well.
- gzip bodies, sockets, epoll, JNI, logging and delegate callbacks.
- Sequence numbers are unbounded; that none meets the handshake or ping number is stated while fewer than 2^31 requests were sent. Connection tokens are unbounded.
- `readUint64`, `readBool`, the "calculate size only" mode and `clearCapacity` of the byte buffer.
- `long` and `size_t` have 64 bits; machines where they have 32 are not modelled.
- Asn1Integers.Encode: does not cover a negative integer whose octets are all zero, because the code then reads before its data; null arguments and allocation failures are left out as well.
- `asn1_collect` without a buffer, which no caller uses, and `asn1_check_tlen` with a context cache.
- The ASN.1 template engine.
- The `int` product of an offset's days overflows from 2^31 seconds, about 68 years, which C leaves undefined; it is modelled with wrap-around. `int` overflow of years and day counts far outside the calendar in `JulianDates` is not modelled; day numbers below zero are refused by the code before they are converted.
- Alignment and partly overlapping buffers in `AesIge`: buffers are the same or disjoint, and blocks are whole. The second key of `AES_bi_ige_encrypt` is not used by the code either.
- AES itself and MD5's compression function are parameters.
- Big-endian hosts in `Md5`.
- Changing the buffer sizes of `BufferingBio`, its other control commands, a missing next BIO, and the retry flags.
- `EVP_DecodeUpdate`, `EVP_DecodeBlock`, and outputs of 2^32 characters or more in `Base64Streams`.
- Memory orders weaker than sequential consistency in `RunOnce` and `RefCounts`.
- Minidump writing, crash handling, directory reading, CPU probing and the rest of the carried libraries.
